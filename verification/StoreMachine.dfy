/** The stores of one storage agent, and everything that may touch them.

A node owns a map from (partition, replica) slots to managed stores. Callers (`reconcile`,
`shutdown_all`), background recovery tasks and drain timers all change that map, one lock section at a
time, so each lock section is one step here and a run is any interleaving of steps.
*/
module StoreMachine {
  import opened Lists
  import opened Wrappers

  datatype Slot = Slot(partition: nat, replica: nat)

  datatype StoreState = Starting | Recovering | Active | Draining | Stopped

  /** `drainCancel` names the cancellation token of the latest drain timer of this store. */
  datatype Store = Store(state: StoreState, drainCancel: Option<nat>)

  datatype Action = Start(slot: Slot) | Drain(slot: Slot) | Stop(slot: Slot)

  /** Everything behind the lock, and the background tasks. `spawned` are recovery tasks that have not
      taken the lock yet, `running` those that are fetching events; `timers` are unfinished drain
      timers, keyed by their cancellation token. */
  datatype Core = Core(
    stores: map<Slot, Store>,
    spawned: map<nat, Slot>,
    running: map<nat, Slot>,
    timers: map<nat, Slot>,
    cancelled: set<nat>,
    nextId: nat,
    hasRecovery: bool)

  function InitCore(hasRecovery: bool): Core {
    Core(map[], map[], map[], map[], {}, 0, hasRecovery)
  }

  // ---------------------------------------------------------------- the diff

  /** `order` lists `keys` once each: the unspecified order in which a hash map is walked. */
  predicate Enumerates<T(==)>(order: seq<T>, keys: set<T>) {
    Distinct(order) && (set k | k in order) == keys
  }

  predicate NeedsStart(stores: map<Slot, Store>, s: Slot) {
    !(s in stores && stores[s].state != Stopped)
  }

  predicate NeedsDrain(stores: map<Slot, Store>, desired: seq<Slot>, s: Slot) {
    s in stores && s !in desired && stores[s].state != Draining && stores[s].state != Stopped
  }

  function StartsFor(stores: map<Slot, Store>, desired: seq<Slot>): seq<Action> {
    if desired == [] then []
    else (if NeedsStart(stores, desired[0]) then [Start(desired[0])] else []) + StartsFor(stores, desired[1..])
  }

  function DrainsFor(stores: map<Slot, Store>, desired: seq<Slot>, order: seq<Slot>): seq<Action> {
    if order == [] then []
    else (if NeedsDrain(stores, desired, order[0]) then [Drain(order[0])] else [])
         + DrainsFor(stores, desired, order[1..])
  }

  function ActionsFor(stores: map<Slot, Store>, desired: seq<Slot>, order: seq<Slot>): seq<Action> {
    StartsFor(stores, desired) + DrainsFor(stores, desired, order)
  }

  lemma {:induction false} StartsForMember(stores: map<Slot, Store>, desired: seq<Slot>, x: Action)
    ensures x in StartsFor(stores, desired) <==> x.Start? && x.slot in desired && NeedsStart(stores, x.slot)
  {
    if desired != [] {
      StartsForMember(stores, desired[1..], x);
      assert desired == [desired[0]] + desired[1..];
    }
  }

  lemma {:induction false} DrainsForMember(stores: map<Slot, Store>, desired: seq<Slot>, order: seq<Slot>, x: Action)
    ensures x in DrainsFor(stores, desired, order) <==>
      x.Drain? && x.slot in order && NeedsDrain(stores, desired, x.slot)
  {
    if order != [] {
      DrainsForMember(stores, desired, order[1..], x);
      assert order == [order[0]] + order[1..];
    }
  }

  /** The actions of a reconcile: every desired slot without a live store is started, every live store
      that is neither desired nor draining is drained, and nothing else. */
  lemma ActionsForMember(stores: map<Slot, Store>, desired: seq<Slot>, order: seq<Slot>, x: Action)
    requires Enumerates(order, stores.Keys)
    ensures x in ActionsFor(stores, desired, order) <==>
      match x
      case Start(s) => s in desired && NeedsStart(stores, s)
      case Drain(s) => NeedsDrain(stores, desired, s)
      case Stop(_) => false
  {
    StartsForMember(stores, desired, x);
    DrainsForMember(stores, desired, order, x);
    assert x.slot in order <==> x.slot in (set k | k in order);
  }

  ghost function WithoutStore(stores: map<Slot, Store>): Slot -> bool {
    (s: Slot) => !(s in stores && stores[s].state != Stopped)
  }

  ghost function Unwanted(stores: map<Slot, Store>, desired: seq<Slot>): Slot -> bool {
    (s: Slot) => s in stores && s !in desired && stores[s].state != Draining && stores[s].state != Stopped
  }

  /** The actions, one for each of the slots in order. */
  ghost predicate OneEach(actions: seq<Action>, slots: seq<Slot>, kind: Slot -> Action) {
    |actions| == |slots| && forall i :: 0 <= i < |slots| ==> actions[i] == kind(slots[i])
  }

  lemma OneMore(actions: seq<Action>, slots: seq<Slot>, kind: Slot -> Action, s: Slot)
    requires OneEach(actions, slots, kind)
    ensures OneEach([kind(s)] + actions, [s] + slots, kind)
  {
  }

  lemma {:induction false} StartsAre(stores: map<Slot, Store>, desired: seq<Slot>)
    ensures OneEach(StartsFor(stores, desired), Filter(WithoutStore(stores), desired), s => Start(s))
  {
    if desired != [] {
      var rest, slots := StartsFor(stores, desired[1..]), Filter(WithoutStore(stores), desired[1..]);
      StartsAre(stores, desired[1..]);
      OneMore(rest, slots, s => Start(s), desired[0]);
      assert [] + rest == rest;
    }
  }

  lemma {:induction false} DrainsAre(stores: map<Slot, Store>, desired: seq<Slot>, order: seq<Slot>)
    ensures OneEach(DrainsFor(stores, desired, order), Filter(Unwanted(stores, desired), order), s => Drain(s))
  {
    if order != [] {
      var rest, slots := DrainsFor(stores, desired, order[1..]), Filter(Unwanted(stores, desired), order[1..]);
      DrainsAre(stores, desired, order[1..]);
      OneMore(rest, slots, s => Drain(s), order[0]);
      assert [] + rest == rest;
    }
  }

  /** The actions come in this order: the starts, one for every time a slot without a live store is desired, in the
      order of the desired slots; then the drains, in the order in which the stores are walked. */
  lemma ActionsInOrder(stores: map<Slot, Store>, desired: seq<Slot>, order: seq<Slot>)
    ensures
      var actions := ActionsFor(stores, desired, order);
      var starts, drains := Filter(WithoutStore(stores), desired), Filter(Unwanted(stores, desired), order);
      && |starts| <= |actions|
      && OneEach(actions[..|starts|], starts, s => Start(s)) && OneEach(actions[|starts|..], drains, s => Drain(s))
  {
    StartsAre(stores, desired);
    DrainsAre(stores, desired, order);
    var actions, k := ActionsFor(stores, desired, order), |StartsFor(stores, desired)|;
    assert actions[..k] == StartsFor(stores, desired) && actions[k..] == DrainsFor(stores, desired, order);
  }

  // ---------------------------------------------------------------- lock sections

  function InsertStore(n: Core, s: Slot): Core {
    var n' := n.(stores := n.stores[s := Store(Starting, None)]);
    if n.hasRecovery then n'.(spawned := n.spawned[n.nextId := s], nextId := n.nextId + 1) else n'
  }

  function SetState(n: Core, s: Slot, st: StoreState): Core {
    if s in n.stores then n.(stores := n.stores[s := n.stores[s].(state := st)]) else n
  }

  function DrainStore(n: Core, s: Slot): Core {
    if s in n.stores && n.stores[s].state != Draining then
      n.(stores := n.stores[s := Store(Draining, Some(n.nextId))],
         timers := n.timers[n.nextId := s],
         nextId := n.nextId + 1)
    else n
  }

  function StopStore(n: Core, s: Slot): Core {
    if s in n.stores then
      n.(stores := n.stores - {s},
         cancelled := n.cancelled + match n.stores[s].drainCancel case None => {} case Some(t) => {t})
    else n
  }

  function RecoveryBegin(n: Core, id: nat): Core
    requires id in n.spawned
  {
    SetState(n, n.spawned[id], Recovering)
      .(spawned := n.spawned - {id}, running := n.running[id := n.spawned[id]])
  }

  function RecoveryEnd(n: Core, id: nat): Core
    requires id in n.running
  {
    SetState(n, n.running[id], Active).(running := n.running - {id})
  }

  function TimerFire(n: Core, id: nat): Core
    requires id in n.timers
  {
    n.(stores := n.stores - {n.timers[id]}, timers := n.timers - {id})
  }

  function TimerCancel(n: Core, id: nat): Core {
    n.(timers := n.timers - {id})
  }

  // ---------------------------------------------------------------- steps and runs

  /** One lock section of a caller: an action, or the second half of starting a store when no recovery
      is configured. */
  datatype Op = Do(action: Action) | MarkActive(slot: Slot)

  /** `callers` holds what each caller still has to do. */
  datatype Node = Node(core: Core, callers: seq<seq<Op>>)

  function Init(hasRecovery: bool): Node {
    Node(InitCore(hasRecovery), [])
  }

  datatype Step =
    | BeginReconcile(desired: seq<Slot>, order: seq<Slot>)
    | BeginShutdown(order: seq<Slot>)
    | RunOp(caller: nat, opens: bool)
    | RecoveryBegins(id: nat)
    | RecoveryEnds(id: nat)
    | TimerFires(id: nat)
    | TimerCancelled(id: nat)

  function Ops(actions: seq<Action>): (ops: seq<Op>)
    ensures |ops| == |actions|
    ensures forall i :: 0 <= i < |ops| ==> ops[i] == Do(actions[i])
  {
    if actions == [] then [] else [Do(actions[0])] + Ops(actions[1..])
  }

  function StopsFor(order: seq<Slot>): (a: seq<Action>)
    ensures |a| == |order|
    ensures forall i :: 0 <= i < |a| ==> a[i] == Stop(order[i])
  {
    if order == [] then [] else [Stop(order[0])] + StopsFor(order[1..])
  }

  /** What the caller still owes a store right after inserting it. */
  function AfterInsert(n: Core, s: Slot): seq<Op> {
    if n.hasRecovery then [] else [MarkActive(s)]
  }

  /** The lock section `op`; a store that cannot be opened changes nothing. */
  function OpCore(n: Core, op: Op, opens: bool): Core {
    match op
    case MarkActive(s) => SetState(n, s, Active)
    case Do(Start(s)) => if opens then InsertStore(n, s) else n
    case Do(Drain(s)) => DrainStore(n, s)
    case Do(Stop(s)) => StopStore(n, s)
  }

  /** What the caller has left after `op`; failing to open a store drops all of it. */
  function OpRest(n: Core, op: Op, opens: bool, rest: seq<Op>): seq<Op> {
    if op.Do? && op.action.Start? then
      if opens then AfterInsert(n, op.action.slot) + rest else []
    else rest
  }

  predicate Enabled(n: Node, step: Step) {
    match step
    case BeginReconcile(_, order) => Enumerates(order, n.core.stores.Keys)
    case BeginShutdown(order) => Enumerates(order, n.core.stores.Keys)
    case RunOp(c, _) => c < |n.callers| && n.callers[c] != []
    case RecoveryBegins(id) => id in n.core.spawned
    case RecoveryEnds(id) => id in n.core.running
    // A timer whose sleep has elapsed fires even when its token is cancelled at the same moment.
    case TimerFires(id) => id in n.core.timers
    case TimerCancelled(id) => id in n.core.timers && id in n.core.cancelled
  }

  function NextCore(n: Node, step: Step): Core
    requires Enabled(n, step)
  {
    match step
    case BeginReconcile(_, _) => n.core
    case BeginShutdown(_) => n.core
    case RunOp(c, opens) => OpCore(n.core, n.callers[c][0], opens)
    case RecoveryBegins(id) => RecoveryBegin(n.core, id)
    case RecoveryEnds(id) => RecoveryEnd(n.core, id)
    case TimerFires(id) => TimerFire(n.core, id)
    case TimerCancelled(id) => TimerCancel(n.core, id)
  }

  function NextCallers(n: Node, step: Step): seq<seq<Op>>
    requires Enabled(n, step)
  {
    match step
    case BeginReconcile(desired, order) => n.callers + [Ops(ActionsFor(n.core.stores, desired, order))]
    case BeginShutdown(order) => n.callers + [Ops(StopsFor(order))]
    case RunOp(c, opens) => n.callers[c := OpRest(n.core, n.callers[c][0], opens, n.callers[c][1..])]
    case _ => n.callers
  }

  function Next(n: Node, step: Step): Node
    requires Enabled(n, step)
  {
    Node(NextCore(n, step), NextCallers(n, step))
  }

  predicate ValidRun(n: Node, steps: seq<Step>)
    decreases |steps|
  {
    steps == [] || (Enabled(n, steps[0]) && ValidRun(Next(n, steps[0]), steps[1..]))
  }

  function Exec(n: Node, steps: seq<Step>): Node
    requires ValidRun(n, steps)
    decreases |steps|
  {
    if steps == [] then n else Exec(Next(n, steps[0]), steps[1..])
  }

  lemma ExecPrepend(n: Node, step: Step, rest: seq<Step>)
    requires Enabled(n, step) && ValidRun(Next(n, step), rest)
    ensures ValidRun(n, [step] + rest) && Exec(n, [step] + rest) == Exec(Next(n, step), rest)
  {
    assert ([step] + rest)[1..] == rest;
  }

  lemma {:induction false} ExecConcat(n: Node, a: seq<Step>, b: seq<Step>)
    requires ValidRun(n, a) && ValidRun(Exec(n, a), b)
    ensures ValidRun(n, a + b) && Exec(n, a + b) == Exec(Exec(n, a), b)
    decreases |a|
  {
    if a == [] {
      assert a + b == b;
    } else {
      var next, rest := Next(n, a[0]), a[1..];
      ExecConcat(next, rest, b);
      ExecPrepend(n, a[0], rest + b);
      ConcatHead(a, b);
    }
  }
}
