/** The reconciler object: its methods, run one lock section at a time, are the steps of the store machine. */
module Reconcilers {
  import opened Lists
  import opened Wrappers
  import opened StoreMachine
  import opened NoStuckStore

  predicate IsLive(stores: map<Slot, Store>, k: Slot) { k in stores && stores[k].state != Stopped }

  /** The keys of `order` whose store has not stopped. */
  function Live(stores: map<Slot, Store>, order: seq<Slot>): seq<Slot> {
    Filter((k: Slot) => IsLive(stores, k), order)
  }

  lemma LiveSnoc(stores: map<Slot, Store>, a: seq<Slot>, k: Slot)
    ensures Live(stores, a + [k]) == Live(stores, a) + if IsLive(stores, k) then [k] else []
  {
    FilterConcat((x: Slot) => IsLive(stores, x), a, [k]);
  }

  lemma LiveMembers(stores: map<Slot, Store>, order: seq<Slot>)
    ensures forall k :: k in Live(stores, order) <==> k in order && IsLive(stores, k)
  {
    FilterMembers((k: Slot) => IsLive(stores, k), order);
  }

  lemma {:induction false} StartsForSnoc(stores: map<Slot, Store>, a: seq<Slot>, s: Slot)
    ensures StartsFor(stores, a + [s]) == StartsFor(stores, a) + if NeedsStart(stores, s) then [Start(s)] else []
  {
    if a == [] {
      assert a + [s] == [s];
    } else {
      StartsForSnoc(stores, a[1..], s);
      assert (a + [s])[1..] == a[1..] + [s];
    }
  }

  lemma {:induction false} DrainsForSnoc(stores: map<Slot, Store>, desired: seq<Slot>, a: seq<Slot>, s: Slot)
    ensures DrainsFor(stores, desired, a + [s]) ==
      DrainsFor(stores, desired, a) + if NeedsDrain(stores, desired, s) then [Drain(s)] else []
  {
    if a == [] {
      assert a + [s] == [s];
    } else {
      DrainsForSnoc(stores, desired, a[1..], s);
      assert (a + [s])[1..] == a[1..] + [s];
    }
  }

  lemma {:induction false} DrainsForLive(stores: map<Slot, Store>, desired: seq<Slot>, order: seq<Slot>)
    ensures DrainsFor(stores, desired, Live(stores, order)) == DrainsFor(stores, desired, order)
  {
    if order != [] {
      DrainsForLive(stores, desired, order[1..]);
      var rest := Live(stores, order[1..]);
      if IsLive(stores, order[0]) {
        assert ([order[0]] + rest)[1..] == rest;
      } else {
        assert [] + DrainsFor(stores, desired, order[1..]) == DrainsFor(stores, desired, order[1..]);
      }
    }
  }

  /** Applying actions one after the other with nothing in between; `opens[i]` says whether action `i`,
      if it is a start, can open its store. The first failure ends it. */
  function ApplyAll(n: Core, actions: seq<Action>, opens: seq<bool>): (Core, bool)
    requires |opens| == |actions|
    decreases |actions|
  {
    if actions == [] then (n, true)
    else if actions[0].Start? && !opens[0] then (n, false)
    else ApplyAll(ApplyOne(n, actions[0]), actions[1..], opens[1..])
  }

  function ApplyOne(n: Core, a: Action): Core {
    match a
    case Start(s) => if n.hasRecovery then InsertStore(n, s) else SetState(InsertStore(n, s), s, Active)
    case Drain(s) => DrainStore(n, s)
    case Stop(s) => StopStore(n, s)
  }

  /** Applying actions is one of the runs of the machine: the one in which this caller is never
      interrupted. */
  lemma {:induction false} ApplyIsARun(n: Core, actions: seq<Action>, opens: seq<bool>) returns (steps: seq<Step>)
    requires |opens| == |actions|
    ensures ValidRun(Node(n, [Ops(actions)]), steps)
    ensures Exec(Node(n, [Ops(actions)]), steps) == Node(ApplyAll(n, actions, opens).0, [[]])
    decreases |actions|
  {
    var start := Node(n, [Ops(actions)]);
    if actions == [] {
      steps := [];
    } else {
      var first := RunOp(0, opens[0]);
      var next := Next(start, first);
      assert start.callers[0][1..] == Ops(actions[1..]);
      if actions[0].Start? && !opens[0] {
        steps := [first];
        assert Exec(next, []) == next;
      } else {
        var rest := ApplyIsARun(ApplyOne(n, actions[0]), actions[1..], opens[1..]);
        if actions[0].Start? && !n.hasRecovery {
          assert next.callers[0][1..] == Ops(actions[1..]);
          var second := RunOp(0, true);
          assert Next(next, second) == Node(ApplyOne(n, actions[0]), [Ops(actions[1..])]);
          ExecConcat(next, [second], rest);
          steps := [first] + ([second] + rest);
        } else {
          assert next.callers[0] == Ops(actions[1..]);
          assert next == Node(ApplyOne(n, actions[0]), [Ops(actions[1..])]);
          steps := [first] + rest;
        }
      }
    }
  }

  /** Without a failure to open everything is applied; otherwise exactly what comes before the first. */
  lemma {:induction false} StopsAtFirstFailure(n: Core, actions: seq<Action>, opens: seq<bool>, k: nat)
    requires |opens| == |actions| && k <= |actions|
    requires forall i :: 0 <= i < k ==> !(actions[i].Start? && !opens[i])
    requires k < |actions| ==> actions[k].Start? && !opens[k]
    ensures ApplyAll(n, actions, opens) == (ApplyAll(n, actions[..k], opens[..k]).0, k == |actions|)
    decreases |actions|
  {
    if k == |actions| {
      assert actions[..k] == actions && opens[..k] == opens;
      AllApplied(n, actions, opens);
    } else if k > 0 {
      StopsAtFirstFailure(ApplyOne(n, actions[0]), actions[1..], opens[1..], k - 1);
      assert actions[..k][1..] == actions[1..][..k - 1] && opens[..k][1..] == opens[1..][..k - 1];
    }
  }

  lemma {:induction false} AllApplied(n: Core, actions: seq<Action>, opens: seq<bool>)
    requires |opens| == |actions| && forall i :: 0 <= i < |actions| ==> !(actions[i].Start? && !opens[i])
    ensures ApplyAll(n, actions, opens).1
    decreases |actions|
  {
    if actions != [] { AllApplied(ApplyOne(n, actions[0]), actions[1..], opens[1..]); }
  }

  function StopAll(n: Core, order: seq<Slot>): Core
    decreases |order|
  {
    if order == [] then n else StopAll(StopStore(n, order[0]), order[1..])
  }

  lemma {:induction false} StopAllStores(n: Core, order: seq<Slot>)
    ensures StopAll(n, order).stores == n.stores - (set s | s in order)
    decreases |order|
  {
    if order != [] {
      StopAllStores(StopStore(n, order[0]), order[1..]);
      assert order == [order[0]] + order[1..];
    }
  }

  /** Shutting down is a run of the machine as well. */
  lemma {:induction false} StopAllIsApplyAll(n: Core, order: seq<Slot>, opens: seq<bool>)
    requires |opens| == |order|
    ensures ApplyAll(n, StopsFor(order), opens) == (StopAll(n, order), true)
    decreases |order|
  {
    if order != [] {
      assert StopsFor(order)[1..] == StopsFor(order[1..]);
      StopAllIsApplyAll(StopStore(n, order[0]), order[1..], opens[1..]);
    }
  }

  /** The invariant of the machine, between calls. */
  ghost predicate InvBetween(n: Core) { Inv(Node(n, [])) }

  lemma CallersDone(n: Core, ops: seq<Op>)
    ensures Inv(Node(n, [[]])) ==> InvBetween(n)
    ensures InvBetween(n) && (forall k :: 0 <= k < |ops| ==> ops[k].Do?) ==> Inv(Node(n, [ops]))
  {
    if Inv(Node(n, [[]])) {
      forall s | s in n.stores && HasCompletion(Node(n, [[]]), s) ensures HasCompletion(Node(n, []), s) {}
    }
    if InvBetween(n) {
      forall s | s in n.stores && HasCompletion(Node(n, []), s) ensures HasCompletion(Node(n, [ops]), s) {}
    }
  }

  /** Applying any actions, failures to open included, keeps the invariant. */
  lemma ApplyKeepsInv(n: Core, actions: seq<Action>, opens: seq<bool>)
    requires |opens| == |actions| && InvBetween(n)
    ensures InvBetween(ApplyAll(n, actions, opens).0)
  {
    CallersDone(n, Ops(actions));
    var steps := ApplyIsARun(n, actions, opens);
    InvRun(Node(n, [Ops(actions)]), steps);
    CallersDone(ApplyAll(n, actions, opens).0, []);
  }

  lemma ApplyOneKeepsInv(n: Core, a: Action)
    requires InvBetween(n)
    ensures InvBetween(ApplyOne(n, a))
  {
    ApplyKeepsInv(n, [a], [true]);
    ApplyAllOne(n, a);
  }

  lemma ApplyAllOne(n: Core, a: Action)
    ensures ApplyAll(n, [a], [true]).0 == ApplyOne(n, a)
  {
    assert [a][1..] == [] && [true][1..] == [];
    assert ApplyAll(ApplyOne(n, a), [], []) == (ApplyOne(n, a), true);
  }

  lemma ActionsAre(stores: map<Slot, Store>, desired: seq<Slot>, order: seq<Slot>)
    requires Enumerates(order, stores.Keys)
    ensures
      var actions := ActionsFor(stores, desired, order);
      && (forall s :: Start(s) in actions <==> s in desired && !(s in stores && stores[s].state != Stopped))
      && (forall s :: Drain(s) in actions <==>
            s in stores && s !in desired && stores[s].state != Draining && stores[s].state != Stopped)
      && (forall s :: Stop(s) !in actions)
  {
    forall x { ActionsForMember(stores, desired, order, x); }
  }

  /** A drain's token is a new one. */
  lemma DrainIsFresh(n: Core, s: Slot)
    requires InvBetween(n) && s in n.stores && n.stores[s].state != Draining
    ensures n.nextId !in n.timers && n.nextId !in n.cancelled
  {
  }

  /** The maps differ at most at `s`. */
  ghost predicate SameElsewhere(a: map<Slot, Store>, b: map<Slot, Store>, s: Slot) {
    forall k :: k != s ==> (k in a <==> k in b) && (k in a && k in b ==> a[k] == b[k])
  }

  class Reconciler {
    const hasRecovery: bool
    var stores: map<Slot, Store>
    var spawned: map<nat, Slot>
    var running: map<nat, Slot>
    var timers: map<nat, Slot>
    var cancelled: set<nat>
    var nextId: nat

    ghost function View(): Core
      reads this
    {
      Core(stores, spawned, running, timers, cancelled, nextId, hasRecovery)
    }

    ghost predicate Valid()
      reads this
    {
      InvBetween(View())
    }

    /** No store of a valid reconciler is stuck: each is active, or a recovery task will mark it active, or a live
        timer will remove it; with no task or timer left they are all active. */
    lemma NothingIsStuck()
      requires Valid()
      ensures forall s :: s in stores ==> Unstuck(Node(View(), []), s)
      ensures spawned == map[] && running == map[] && timers == map[] ==> forall s :: s in stores ==>
        stores[s].state == Active
    {
      InvMeansUnstuck(Node(View(), []));
    }

    constructor (hasRecovery: bool)
      ensures Valid() && View() == InitCore(hasRecovery)
    {
      this.hasRecovery := hasRecovery;
      stores, spawned, running, timers, cancelled, nextId := map[], map[], map[], map[], {}, 0;
    }

    /** The slots whose store has not stopped, in the order the map is walked. */
    method ActualSlots(order: seq<Slot>) returns (actual: seq<Slot>)
      requires Enumerates(order, stores.Keys)
      ensures forall k :: k in order ==> k in stores
      ensures actual == Live(stores, order)
      ensures forall k :: k in actual <==> k in stores && stores[k].state != Stopped
    {
      actual := [];
      forall k ensures k in order <==> k in stores { assert k in order <==> k in (set x | x in order); }
      for i := 0 to |order|
        invariant actual == Live(stores, order[..i])
      {
        assert order[..i + 1] == order[..i] + [order[i]];
        LiveSnoc(stores, order[..i], order[i]);
        if stores[order[i]].state != Stopped {
          actual := actual + [order[i]];
        }
      }
      assert order[..|order|] == order;
      LiveMembers(stores, order);
    }

    /** The diff between what is desired and what runs: every desired slot without a live store is
        started, every live store that is neither desired nor draining is drained, and nothing else. */
    method ComputeActions(desired: seq<Slot>, order: seq<Slot>) returns (actions: seq<Action>)
      requires Enumerates(order, stores.Keys)
      ensures actions == ActionsFor(stores, desired, order)
      ensures forall s :: Start(s) in actions <==> s in desired && !(s in stores && stores[s].state != Stopped)
      ensures forall s :: Drain(s) in actions <==>
        s in stores && s !in desired && stores[s].state != Draining && stores[s].state != Stopped
      ensures forall s :: Stop(s) !in actions
    {
      var actual := ActualSlots(order);
      var starts: seq<Action> := [];
      for i := 0 to |desired|
        invariant starts == StartsFor(stores, desired[..i])
      {
        assert desired[..i + 1] == desired[..i] + [desired[i]];
        StartsForSnoc(stores, desired[..i], desired[i]);
        if desired[i] !in actual {
          starts := starts + [Start(desired[i])];
        }
      }
      assert desired[..|desired|] == desired;
      var drains: seq<Action> := [];
      for i := 0 to |actual|
        invariant drains == DrainsFor(stores, desired, actual[..i])
      {
        assert actual[..i + 1] == actual[..i] + [actual[i]];
        DrainsForSnoc(stores, desired, actual[..i], actual[i]);
        if actual[i] !in desired && stores[actual[i]].state != Draining && stores[actual[i]].state != Stopped {
          drains := drains + [Drain(actual[i])];
        }
      }
      assert actual[..|actual|] == actual;
      DrainsForLive(stores, desired, order);
      actions := starts + drains;
      ActionsAre(stores, desired, order);
    }

    /** Starts a store with no other lock section in between. */
    method StartStore(s: Slot, opens: bool) returns (ok: bool)
      requires Valid()
      modifies this
      ensures Valid()
      ensures ok == opens
      ensures View() == if opens then ApplyOne(old(View()), Start(s)) else old(View())
      ensures SameElsewhere(stores, old(stores), s)
      ensures opens ==> s in stores && stores[s] == Store(if hasRecovery then Starting else Active, None)
      ensures opens && hasRecovery ==> old(nextId) !in old(spawned) && spawned == old(spawned)[old(nextId) := s]
      ensures !opens || !hasRecovery ==> spawned == old(spawned)
      ensures !opens ==> stores == old(stores)
      ensures running == old(running) && timers == old(timers) && cancelled == old(cancelled)
    {
      if !opens {
        return false;
      }
      ApplyOneKeepsInv(View(), Start(s));
      InsertSlot(s);
      if !hasRecovery {
        MarkSlotActive(s);
      }
      return true;
    }

    /** The first lock section of a start: the new store replaces whatever was there, and is starting; recovery, if
        configured, is on its way. */
    method InsertSlot(s: Slot)
      modifies this
      ensures View() == InsertStore(old(View()), s)
      ensures s in stores && stores[s] == Store(Starting, None) && SameElsewhere(stores, old(stores), s)
      ensures spawned == if hasRecovery then old(spawned)[old(nextId) := s] else old(spawned)
      ensures nextId == if hasRecovery then old(nextId) + 1 else old(nextId)
      ensures running == old(running) && timers == old(timers) && cancelled == old(cancelled)
    {
      stores := stores[s := Store(Starting, None)];
      if hasRecovery {
        spawned := spawned[nextId := s];
        nextId := nextId + 1;
      }
    }

    /** The second one, without recovery: the store becomes active whatever state it is in. */
    method MarkSlotActive(s: Slot)
      modifies this
      ensures View() == SetState(old(View()), s, Active)
      ensures stores.Keys == old(stores).Keys && SameElsewhere(stores, old(stores), s)
      ensures s in stores ==> stores[s] == Store(Active, old(stores)[s].drainCancel)
      ensures spawned == old(spawned) && running == old(running) && timers == old(timers)
      ensures cancelled == old(cancelled) && nextId == old(nextId)
    {
      if s in stores {
        stores := stores[s := stores[s].(state := Active)];
      }
    }

    /** A store that is there and not draining gets a token and a timer of its own; its earlier timer, if it has
        one, goes on without it. */
    method DrainSlot(s: Slot)
      requires Valid()
      modifies this
      ensures Valid()
      ensures View() == DrainStore(old(View()), s)
      ensures s in old(stores) && old(stores)[s].state != Draining ==>
        && s in stores && stores[s] == Store(Draining, Some(old(nextId))) && SameElsewhere(stores, old(stores), s)
        && old(nextId) !in old(timers) && old(nextId) !in cancelled && timers == old(timers)[old(nextId) := s]
      ensures s !in old(stores) || old(stores)[s].state == Draining ==> View() == old(View())
      ensures spawned == old(spawned) && running == old(running) && cancelled == old(cancelled)
    {
      ghost var before := View();
      if s in stores {
        if stores[s].state == Draining {
          return;
        }
        DrainIsFresh(before, s);
        MarkDraining(s);
        ApplyOneKeepsInv(before, Drain(s));
      }
    }

    method MarkDraining(s: Slot)
      requires s in stores && stores[s].state != Draining
      modifies this
      ensures View() == DrainStore(old(View()), s)
      ensures s in stores && stores[s] == Store(Draining, Some(old(nextId))) && SameElsewhere(stores, old(stores), s)
      ensures timers == old(timers)[old(nextId) := s]
      ensures spawned == old(spawned) && running == old(running) && cancelled == old(cancelled)
    {
      stores := stores[s := stores[s].(state := Draining)];
      stores := stores[s := stores[s].(drainCancel := Some(nextId))];
      timers := timers[nextId := s];
      nextId := nextId + 1;
    }

    /** The store is gone and the token of its latest drain, if any, cancelled; no other token is. */
    method StopSlot(s: Slot)
      requires Valid()
      modifies this
      ensures Valid()
      ensures View() == StopStore(old(View()), s)
      ensures s !in stores && SameElsewhere(stores, old(stores), s)
      ensures forall t :: t in cancelled <==>
        t in old(cancelled) || (s in old(stores) && old(stores)[s].drainCancel == Some(t))
      ensures spawned == old(spawned) && running == old(running) && timers == old(timers)
    {
      ghost var before := View();
      if s in stores {
        var managed := stores[s];
        stores := stores - {s};
        if managed.drainCancel.Some? {
          cancelled := cancelled + {managed.drainCancel.value};
        }
        assert View() == StopStore(before, s);
        ApplyOneKeepsInv(before, Stop(s));
      }
    }

    method Apply(actions: seq<Action>, opens: seq<bool>) returns (ok: bool)
      requires |opens| == |actions|
      requires Valid()
      modifies this
      ensures Valid()
      ensures (View(), ok) == ApplyAll(old(View()), actions, opens)
    {
      for i := 0 to |actions|
        invariant Valid()
        invariant ApplyAll(View(), actions[i..], opens[i..]) == ApplyAll(old(View()), actions, opens)
      {
        assert actions[i..][1..] == actions[i + 1..] && opens[i..][1..] == opens[i + 1..];
        match actions[i] {
          case Start(s) =>
            var started := StartStore(s, opens[i]);
            if !started { return false; }
          case Drain(s) => DrainSlot(s);
          case Stop(s) => StopSlot(s);
        }
      }
      return true;
    }

    /** Reconciling is the diff of the state it starts in, applied. */
    method Reconcile(desired: seq<Slot>, order: seq<Slot>, opens: seq<bool>)
      returns (actions: seq<Action>, ok: bool)
      requires Enumerates(order, stores.Keys)
      requires |opens| == |ActionsFor(stores, desired, order)|
      requires Valid()
      modifies this
      ensures Valid()
      ensures actions == ActionsFor(old(stores), desired, order)
      ensures (View(), ok) == ApplyAll(old(View()), actions, opens)
    {
      actions := ComputeActions(desired, order);
      ok := Apply(actions, opens);
    }

    /** Shutting down with no other lock section in between leaves no store. */
    method ShutdownAll(order: seq<Slot>)
      requires Enumerates(order, stores.Keys)
      requires Valid()
      modifies this
      ensures Valid()
      ensures View() == StopAll(old(View()), order)
      ensures stores == map[]
    {
      StopAllStores(View(), order);
      for i := 0 to |order|
        invariant Valid()
        invariant StopAll(View(), order[i..]) == StopAll(old(View()), order)
      {
        assert order[i..][1..] == order[i + 1..];
        StopSlot(order[i]);
      }
    }

    /** The store becomes recovering whatever state it is in, a draining one included, and keeps its token. */
    method BeginRecovery(id: nat)
      requires id in spawned
      requires Valid()
      modifies this
      ensures Valid()
      ensures View() == RecoveryBegin(old(View()), id)
      ensures stores.Keys == old(stores).Keys && SameElsewhere(stores, old(stores), old(spawned)[id])
      ensures
        var s := old(spawned)[id];
        s in stores ==> stores[s] == Store(Recovering, old(stores)[s].drainCancel)
      ensures spawned == old(spawned) - {id} && running == old(running)[id := old(spawned)[id]]
      ensures timers == old(timers) && cancelled == old(cancelled) && nextId == old(nextId)
    {
      InvNext(Node(View(), []), RecoveryBegins(id));
      var s := spawned[id];
      spawned := spawned - {id};
      if s in stores {
        stores := stores[s := stores[s].(state := Recovering)];
      }
      running := running[id := s];
    }

    /** The store becomes active whatever state it is in, a draining one included, and keeps its token; no other
        store, no timer and no token changes. */
    method EndRecovery(id: nat)
      requires id in running
      requires Valid()
      modifies this
      ensures Valid()
      ensures View() == RecoveryEnd(old(View()), id)
      ensures stores.Keys == old(stores).Keys && SameElsewhere(stores, old(stores), old(running)[id])
      ensures
        var s := old(running)[id];
        s in stores ==> stores[s] == Store(Active, old(stores)[s].drainCancel)
      ensures running == old(running) - {id} && spawned == old(spawned)
      ensures timers == old(timers) && cancelled == old(cancelled) && nextId == old(nextId)
    {
      InvNext(Node(View(), []), RecoveryEnds(id));
      var s := running[id];
      running := running - {id};
      if s in stores {
        stores := stores[s := stores[s].(state := Active)];
      }
    }

    /** The slot's store is removed, whichever it is by then and whatever its state. */
    method FireTimer(id: nat)
      requires id in timers
      requires Valid()
      modifies this
      ensures Valid()
      ensures View() == TimerFire(old(View()), id)
      ensures old(timers)[id] !in stores && SameElsewhere(stores, old(stores), old(timers)[id])
      ensures timers == old(timers) - {id} && cancelled == old(cancelled)
      ensures spawned == old(spawned) && running == old(running) && nextId == old(nextId)
    {
      InvNext(Node(View(), []), TimerFires(id));
      var s := timers[id];
      timers := timers - {id};
      stores := stores - {s};
    }

    /** A timer whose token is cancelled ends without touching the stores. */
    method CancelTimer(id: nat)
      requires id in timers && id in cancelled
      requires Valid()
      modifies this
      ensures Valid()
      ensures View() == TimerCancel(old(View()), id)
      ensures stores == old(stores) && timers == old(timers) - {id} && cancelled == old(cancelled)
      ensures spawned == old(spawned) && running == old(running) && nextId == old(nextId)
    {
      InvNext(Node(View(), []), TimerCancelled(id));
      timers := timers - {id};
    }
  }
}
