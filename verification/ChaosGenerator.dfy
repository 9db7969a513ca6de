/** Random chaos schedules: timed faults with a cap on how many are active and a minimum spacing.

Times are nanoseconds and saturate at the largest representable duration. Every random choice is an input:
the generator consumes a sequence of draws, one for each turn of its loop, whatever they are.
*/
module ChaosGenerator {
  import opened Lists
  import opened Wrappers
  import opened Durations
  import opened Numbers

  datatype ChaosAction = Kill | Pause | Restart | Slow | KillRandom | NetworkPartition

  /** Inclusive ranges for the parameters that an action samples. */
  datatype ActionConfig = ActionConfig(
    pool: seq<string>,
    restartAfter: Option<(Duration, Duration)>,
    delayMs: Option<(nat, nat)>,
    healAfter: Option<(Duration, Duration)>,
    pauseDuration: Option<(Duration, Duration)>)

  /** `actions` in the order of their names. */
  datatype RandomChaosConfig = RandomChaosConfig(
    duration: Duration,
    maxConcurrentFaults: nat,
    minInterval: Duration,
    actions: seq<(string, ActionConfig)>)

  datatype EventDef = EventDef(
    at: Duration,
    action: ChaosAction,
    target: Option<string>,
    restartAfter: Option<Duration>,
    duration: Option<Duration>,
    delayMs: Option<nat>,
    partitionFrom: seq<string>,
    healAfter: Option<Duration>,
    pool: seq<string>)

  datatype Params = Params(restartAfter: Duration, delayMs: nat, healAfter: Duration, pauseDuration: Duration)

  /** What one turn of the loop draws: the waiting time, the action, the target, and the parameters of the
      event, drawn again if it is postponed. */
  datatype Draw = Draw(dt: Duration, action: nat, target: nat, params: Params, postponed: Params)

  function ActionNamed(name: string): Option<ChaosAction> {
    if name == "kill" then Some(Kill)
    else if name == "pause" then Some(Pause)
    else if name == "restart" then Some(Restart)
    else if name == "slow" then Some(Slow)
    else if name == "network_partition" then Some(NetworkPartition)
    else if name == "kill_random" then Some(Kill)
    else None
  }

  function KnownActions(actions: seq<(string, ActionConfig)>): seq<(ChaosAction, ActionConfig)> {
    if actions == [] then []
    else match ActionNamed(actions[0].0)
      case Some(a) => [(a, actions[0].1)] + KnownActions(actions[1..])
      case None => KnownActions(actions[1..])
  }

  predicate ValidParams(cfg: ActionConfig, p: Params) {
    && (cfg.restartAfter.Some? ==> cfg.restartAfter.value.0 <= p.restartAfter <= cfg.restartAfter.value.1)
    && (cfg.delayMs.Some? ==> cfg.delayMs.value.0 <= p.delayMs <= cfg.delayMs.value.1)
    && (cfg.healAfter.Some? ==> cfg.healAfter.value.0 <= p.healAfter <= cfg.healAfter.value.1)
    && (cfg.pauseDuration.Some? ==> cfg.pauseDuration.value.0 <= p.pauseDuration <= cfg.pauseDuration.value.1)
  }

  /** A draw is an index of a known action, an index into its pool if it has one, and parameters within the
      configured ranges. */
  predicate ValidDraw(actions: seq<(ChaosAction, ActionConfig)>, d: Draw) {
    && d.action < |actions|
    && var cfg := actions[d.action].1;
       && (cfg.pool != [] ==> d.target < |cfg.pool|)
       && ValidParams(cfg, d.params) && ValidParams(cfg, d.postponed)
  }

  function Sampled<A, B>(range: Option<A>, x: B): Option<B> {
    if range.Some? then Some(x) else None
  }

  function BuildEventDef(action: ChaosAction, at: Duration, target: Option<string>, cfg: ActionConfig,
                         p: Params): EventDef
  {
    EventDef(at, action, target,
             Sampled(cfg.restartAfter, p.restartAfter),
             Sampled(cfg.pauseDuration, p.pauseDuration),
             Sampled(cfg.delayMs, p.delayMs),
             if action == NetworkPartition then Filter((x: string) => target != Some(x), cfg.pool) else [],
             Sampled(cfg.healAfter, p.healAfter),
             cfg.pool)
  }

  function Or<T>(a: Option<T>, b: Option<T>): Option<T> { if a.Some? then a else b }

  /** How long a fault stays active. */
  function FaultActiveDuration(e: EventDef): Duration {
    match Or(Or(e.restartAfter, e.duration), e.healAfter)
    case Some(d) => d
    case None => 0
  }

  /** The time until the restart decides, then the length of the pause, then the time until the heal. */
  lemma DurationMeaning(e: EventDef)
    ensures e.restartAfter.Some? ==> FaultActiveDuration(e) == e.restartAfter.value
    ensures e.restartAfter.None? && e.duration.Some? ==> FaultActiveDuration(e) == e.duration.value
    ensures e.restartAfter.None? && e.duration.None? ==>
      FaultActiveDuration(e) == if e.healAfter.Some? then e.healAfter.value else 0
  {
  }

  function Expiry(e: EventDef): Duration { SaturatingAdd(e.at, FaultActiveDuration(e)) }

  // ---------------------------------------------------------------- what an event is made of

  /** The names of the actions; killing at random is killing. */
  ghost predicate Names(name: string, a: ChaosAction) {
    match a
    case Kill => name == "kill" || name == "kill_random"
    case Pause => name == "pause"
    case Restart => name == "restart"
    case Slow => name == "slow"
    case NetworkPartition => name == "network_partition"
    case KillRandom => false
  }

  /** The known actions are those with one of these names, with their configuration. */
  lemma {:induction false} KnownActionsMeaning(actions: seq<(string, ActionConfig)>, a: ChaosAction, cfg: ActionConfig)
    ensures (a, cfg) in KnownActions(actions) <==> exists name :: (name, cfg) in actions && Names(name, a)
  {
    if actions != [] {
      KnownActionsMeaning(actions[1..], a, cfg);
      assert actions == [actions[0]] + actions[1..];
      assert ActionNamed(actions[0].0) == Some(a) <==> Names(actions[0].0, a);
      if actions[0].1 == cfg && Names(actions[0].0, a) { assert (actions[0].0, cfg) in actions; }
    }
  }

  /** They keep the order in which they are configured. */
  lemma {:induction false} KnownActionsInOrder(actions: seq<(string, ActionConfig)>, name: string, cfg: ActionConfig)
    ensures forall a :: Names(name, a) ==> KnownActions(actions + [(name, cfg)]) == KnownActions(actions) + [(a, cfg)]
    ensures (forall a :: !Names(name, a)) ==> KnownActions(actions + [(name, cfg)]) == KnownActions(actions)
  {
    var last := (name, cfg);
    assert forall a :: ActionNamed(name) == Some(a) <==> Names(name, a);
    if actions == [] {
      assert actions + [last] == [last] && [last][1..] == [];
    } else {
      KnownActionsInOrder(actions[1..], name, cfg);
      assert (actions + [last])[1..] == actions[1..] + [last];
    }
  }

  /** A parameter is there exactly if its range is, and within it. */
  ghost predicate InRange(v: Option<nat>, range: Option<(nat, nat)>) {
    (v.Some? <==> range.Some?) && (v.Some? ==> range.value.0 <= v.value <= range.value.1)
  }

  /** What an event takes from its configuration: each parameter from its own range, a target from the pool if there
      is one, and, for a partition, all of the pool but the target to be cut off from. */
  ghost predicate Samples(e: EventDef, cfg: ActionConfig) {
    && InRange(e.restartAfter, cfg.restartAfter) && InRange(e.delayMs, cfg.delayMs)
    && InRange(e.healAfter, cfg.healAfter) && InRange(e.duration, cfg.pauseDuration)
    && e.pool == cfg.pool && (e.target.Some? <==> cfg.pool != []) && (e.target.Some? ==> e.target.value in cfg.pool)
    && (forall x :: x in e.partitionFrom <==> e.action == NetworkPartition && x in cfg.pool && e.target != Some(x))
    && (e.action == NetworkPartition ==> |cfg.pool| >= 2)
  }

  lemma BuildSamples(action: ChaosAction, at: Duration, cfg: ActionConfig, target: Option<string>, p: Params)
    requires ValidParams(cfg, p) && (action == NetworkPartition ==> |cfg.pool| >= 2)
    requires (target.Some? <==> cfg.pool != []) && (target.Some? ==> target.value in cfg.pool)
    ensures
      var e := BuildEventDef(action, at, target, cfg, p);
      Samples(e, cfg) && e.action == action && e.at == at
  {
    FilterMembers((x: string) => target != Some(x), cfg.pool);
  }

  /** The event is one of the actions, made from its configuration. */
  ghost predicate SampledFrom(actions: seq<(ChaosAction, ActionConfig)>, e: EventDef) {
    exists cfg :: (e.action, cfg) in actions && Samples(e, cfg)
  }

  ghost predicate AllSampled(actions: seq<(ChaosAction, ActionConfig)>, events: seq<EventDef>) {
    forall e :: e in events ==> SampledFrom(actions, e)
  }

  lemma SampledSnoc(actions: seq<(ChaosAction, ActionConfig)>, events: seq<EventDef>, e: EventDef, d: nat)
    requires AllSampled(actions, events) && d < |actions| && e.action == actions[d].0 && Samples(e, actions[d].1)
    ensures AllSampled(actions, events + [e])
  {
    assert (e.action, actions[d].1) == actions[d] && SampledFrom(actions, e);
  }

  /** Every event has the name and the configuration of some action. */
  ghost predicate Configured(config: RandomChaosConfig, events: seq<EventDef>) {
    forall e :: e in events ==>
      exists name, cfg :: (name, cfg) in config.actions && Names(name, e.action) && Samples(e, cfg)
  }

  lemma SampledIsConfigured(config: RandomChaosConfig, events: seq<EventDef>)
    requires AllSampled(KnownActions(config.actions), events)
    ensures Configured(config, events)
  {
    forall e | e in events
      ensures exists name, cfg :: (name, cfg) in config.actions && Names(name, e.action) && Samples(e, cfg)
    {
      assert SampledFrom(KnownActions(config.actions), e);
      var cfg :| (e.action, cfg) in KnownActions(config.actions) && Samples(e, cfg);
      KnownActionsMeaning(config.actions, e.action, cfg);
      var name :| (name, cfg) in config.actions && Names(name, e.action);
    }
  }

  // ---------------------------------------------------------------- what a schedule promises

  /** How many faults are active at `tau`. */
  ghost function ActiveAt(events: seq<EventDef>, tau: nat): nat {
    if events == [] then 0
    else
      var e := events[|events| - 1];
      ActiveAt(events[..|events| - 1], tau) + if e.at <= tau < e.at + FaultActiveDuration(e) then 1 else 0
  }

  /** At no instant are more than `cap` faults active. */
  ghost predicate Capped(events: seq<EventDef>, cap: nat) {
    forall tau: nat :: ActiveAt(events, tau) <= cap
  }

  /** Waiting to be restarted at `tau`. */
  ghost function Down(tau: nat): EventDef -> bool {
    (e: EventDef) => e.restartAfter.Some? && e.at <= tau < e.at + e.restartAfter.value
  }

  /** In a pause at `tau`. */
  ghost function Paused(tau: nat): EventDef -> bool {
    (e: EventDef) => e.restartAfter.None? && e.duration.Some? && e.at <= tau < e.at + e.duration.value
  }

  /** Not healed yet at `tau`. */
  ghost function Cut(tau: nat): EventDef -> bool {
    (e: EventDef) => e.restartAfter.None? && e.duration.None? && e.healAfter.Some?
                     && e.at <= tau < e.at + e.healAfter.value
  }

  /** At no instant are more than `cap` targets down, paused or cut off, taken together. */
  ghost predicate FewAtOnce(events: seq<EventDef>, cap: nat) {
    forall tau: nat :: |Filter(Down(tau), events)| + |Filter(Paused(tau), events)| + |Filter(Cut(tau), events)| <= cap
  }

  lemma FilterLast(p: EventDef -> bool, front: seq<EventDef>, e: EventDef)
    ensures |Filter(p, front + [e])| == |Filter(p, front)| + if p(e) then 1 else 0
  {
    FilterConcat(p, front, [e]);
    assert [e][1..] == [];
  }

  /** The faults that count as active are those three kinds. */
  lemma {:induction false} ActiveAre(events: seq<EventDef>, tau: nat)
    ensures ActiveAt(events, tau) ==
      |Filter(Down(tau), events)| + |Filter(Paused(tau), events)| + |Filter(Cut(tau), events)|
  {
    if events != [] {
      var front, e := events[..|events| - 1], events[|events| - 1];
      assert events == front + [e];
      ActiveAre(front, tau);
      DurationMeaning(e);
      FilterLast(Down(tau), front, e);
      FilterLast(Paused(tau), front, e);
      FilterLast(Cut(tau), front, e);
    }
  }

  lemma CappedMeansFew(events: seq<EventDef>, cap: nat)
    ensures Capped(events, cap) <==> FewAtOnce(events, cap)
  {
    forall tau: nat
      ensures ActiveAt(events, tau) ==
        |Filter(Down(tau), events)| + |Filter(Paused(tau), events)| + |Filter(Cut(tau), events)|
    {
      ActiveAre(events, tau);
    }
  }

  ghost predicate Spaced(events: seq<EventDef>, gap: Duration) {
    forall i :: 0 <= i < |events| - 1 ==> events[i].at + gap <= events[i + 1].at
  }

  ghost predicate Until(events: seq<EventDef>, t: Duration) {
    forall i :: 0 <= i < |events| ==> events[i].at <= t
  }

  ghost function CountAbove(active: seq<Duration>, tau: nat): nat {
    if active == [] then 0
    else CountAbove(active[..|active| - 1], tau) + if active[|active| - 1] > tau then 1 else 0
  }

  /** From `t` on, the expiry times being tracked tell how many faults are active. */
  ghost predicate Tracks(events: seq<EventDef>, active: seq<Duration>, t: Duration) {
    forall tau: nat :: t <= tau < MAX_DURATION ==> ActiveAt(events, tau) == CountAbove(active, tau)
  }

  lemma {:induction false} CountAboveBound(active: seq<Duration>, tau: nat)
    ensures CountAbove(active, tau) <= |active|
  {
    if active != [] { CountAboveBound(active[..|active| - 1], tau); }
  }

  lemma {:induction false} CountAboveConcat(a: seq<Duration>, b: seq<Duration>, tau: nat)
    ensures CountAbove(a + b, tau) == CountAbove(a, tau) + CountAbove(b, tau)
  {
    if b == [] {
      assert a + b == a;
    } else {
      CountAboveConcat(a, b[..|b| - 1], tau);
      assert (a + b)[..|a + b| - 1] == a + b[..|b| - 1];
    }
  }

  /** Dropping what has expired by `t` changes nothing from `t` on. */
  lemma {:induction false} RetainKeepsCount(active: seq<Duration>, t: Duration, tau: nat)
    requires t <= tau
    ensures CountAbove(Filter((x: Duration) => x > t, active), tau) == CountAbove(active, tau)
  {
    if active != [] {
      RetainKeepsCount(active[1..], t, tau);
      assert active == [active[0]] + active[1..];
      CountAboveConcat([active[0]], active[1..], tau);
      CountAboveConcat([active[0]], Filter((x: Duration) => x > t, active[1..]), tau);
      assert CountAbove([active[0]], tau) == (if active[0] > tau then 1 else 0) by {
        assert [active[0]][..0] == [];
      }
    }
  }

  /** After the last event has started, faults only expire. */
  lemma {:induction false} ActiveOnlyExpires(events: seq<EventDef>, t: nat, tau: nat)
    requires t <= tau && forall i :: 0 <= i < |events| ==> events[i].at <= t
    ensures ActiveAt(events, tau) <= ActiveAt(events, t)
  {
    if events != [] { ActiveOnlyExpires(events[..|events| - 1], t, tau); }
  }

  lemma ActiveAtPush(events: seq<EventDef>, e: EventDef, tau: nat)
    ensures ActiveAt(events + [e], tau) == ActiveAt(events, tau) +
      if e.at <= tau < e.at + FaultActiveDuration(e) then 1 else 0
  {
    assert (events + [e])[..|events|] == events;
  }

  /** Adding an event at the end keeps the cap when fewer than `cap` faults are being tracked. */
  lemma PushKeepsCap(events: seq<EventDef>, e: EventDef, active: seq<Duration>, cap: nat)
    requires Until(events, e.at) && e.at < MAX_DURATION
    requires Capped(events, cap) && Tracks(events, active, e.at) && |active| < cap
    ensures Capped(events + [e], cap) && Tracks(events + [e], active + [Expiry(e)], e.at)
  {
    forall tau: nat | e.at <= tau < MAX_DURATION
      ensures ActiveAt(events + [e], tau) == CountAbove(active + [Expiry(e)], tau)
    {
      ActiveAtPush(events, e, tau);
      assert (active + [Expiry(e)])[..|active|] == active;
    }
    forall tau: nat ensures ActiveAt(events + [e], tau) <= cap {
      ActiveAtPush(events, e, tau);
      if tau >= e.at {
        CountAboveBound(active + [Expiry(e)], e.at);
        ActiveOnlyExpires(events + [e], e.at, tau);
      }
    }
  }

  lemma RetainTracks(events: seq<EventDef>, active: seq<Duration>, t: Duration, t': Duration)
    requires Tracks(events, active, t) && t <= t'
    ensures Tracks(events, Filter((x: Duration) => x > t', active), t')
  {
    forall tau: nat | t' <= tau < MAX_DURATION
      ensures ActiveAt(events, tau) == CountAbove(Filter((x: Duration) => x > t', active), tau)
    {
      RetainKeepsCount(active, t', tau);
    }
  }

  function Earliest(active: seq<Duration>): (m: Duration)
    requires active != []
    ensures m in active && forall x :: x in active ==> m <= x
  {
    if |active| == 1 then active[0]
    else
      assert active == [active[0]] + active[1..];
      var m := Earliest(active[1..]);
      if active[0] <= m then active[0] else m
  }

  ghost predicate GoodSchedule(events: seq<EventDef>, config: RandomChaosConfig) {
    && Until(events, config.duration)
    && Spaced(events, config.minInterval)
    && Capped(events, config.maxConcurrentFaults)
  }

  // ---------------------------------------------------------------- what the generator is to do

  /** A schedule in the making: `t` is where its clock stands, `done` whether it has run past its end. */
  datatype Progress = Progress(events: seq<EventDef>, t: nat, done: bool)

  /** The first instant from `ready` on at which fewer than `cap` faults are active. */
  ghost predicate FirstFree(events: seq<EventDef>, cap: nat, ready: nat, at: nat) {
    && ready <= at && ActiveAt(events, at) < cap
    && forall tau: nat :: ready <= tau < at ==> ActiveAt(events, tau) >= cap
  }

  ghost predicate NeverFree(events: seq<EventDef>, cap: nat, ready: nat, end: nat) {
    forall tau: nat :: ready <= tau <= end ==> ActiveAt(events, tau) >= cap
  }

  /** When the spacing lets the next event happen. */
  function ReadyAt(events: seq<EventDef>, arrival: nat, gap: nat): nat {
    if events != [] && arrival < events[|events| - 1].at + gap then events[|events| - 1].at + gap else arrival
  }

  function Target(cfg: ActionConfig, d: Draw): Option<string>
    requires cfg.pool != [] ==> d.target < |cfg.pool|
  {
    if cfg.pool != [] then Some(cfg.pool[d.target]) else None
  }

  predicate Impossible(action: ChaosAction, cfg: ActionConfig) {
    action == NetworkPartition && |cfg.pool| < 2
  }

  /** One draw schedules its action at the first instant, from its arrival on, that the spacing and the cap
      both allow; it is the end when there is none before the schedule's. A partition of fewer than two
      nodes is left out. */
  ghost predicate DrawScheduled(config: RandomChaosConfig, actions: seq<(ChaosAction, ActionConfig)>,
                                p: Progress, d: Draw, p': Progress)
    requires ValidDraw(actions, d)
  {
    var (action, cfg) := actions[d.action];
    var arrival := p.t + d.dt;
    var ready := ReadyAt(p.events, arrival, config.minInterval);
    if ready > config.duration then p' == p.(done := true)
    else if Impossible(action, cfg) || config.maxConcurrentFaults == 0 then p' == p.(t := ready)
    else if NeverFree(p.events, config.maxConcurrentFaults, ready, config.duration) then p' == p.(done := true)
    else
      && !p'.done
      && p'.t <= config.duration && FirstFree(p.events, config.maxConcurrentFaults, ready, p'.t)
      && p'.events == p.events +
        [BuildEventDef(action, p'.t, Target(cfg, d), cfg, if p'.t == ready then d.params else d.postponed)]
  }

  ghost predicate Scheduled(config: RandomChaosConfig, actions: seq<(ChaosAction, ActionConfig)>, draws: seq<Draw>,
                            p: Progress)
    requires forall i :: 0 <= i < |draws| ==> ValidDraw(actions, draws[i])
    decreases |draws|
  {
    if draws == [] then p == Progress([], 0, false)
    else
      exists q :: Scheduled(config, actions, draws[..|draws| - 1], q) && !q.done
                  && DrawScheduled(config, actions, q, draws[|draws| - 1], p)
  }

  ghost predicate Carries(v: Option<nat>, range: Option<(nat, nat)>, x: nat) {
    v == if range.Some? then Some(x) else None
  }

  /** The event a draw leads to has the action, the target and the parameters that were drawn, those drawn again if it
      could not happen when it was due. */
  lemma DrawnEvent(config: RandomChaosConfig, actions: seq<(ChaosAction, ActionConfig)>,
                   p: Progress, d: Draw, p': Progress)
    requires ValidDraw(actions, d) && DrawScheduled(config, actions, p, d, p') && p'.events != p.events
    ensures |p'.events| == |p.events| + 1 && p'.events[..|p.events|] == p.events
    ensures
      var e, (action, cfg) := p'.events[|p.events|], actions[d.action];
      var spaced := if p.events != [] then p.events[|p.events| - 1].at + config.minInterval else 0;
      var due := Max(p.t + d.dt, spaced);
      var params := if e.at == due then d.params else d.postponed;
      && e.at == p'.t >= due && e.action == action
      && e.target == (if cfg.pool != [] then Some(cfg.pool[d.target]) else None)
      && Carries(e.restartAfter, cfg.restartAfter, params.restartAfter)
      && Carries(e.delayMs, cfg.delayMs, params.delayMs) && Carries(e.healAfter, cfg.healAfter, params.healAfter)
      && Carries(e.duration, cfg.pauseDuration, params.pauseDuration)
  {
  }

  lemma DrawIsDetermined(config: RandomChaosConfig, actions: seq<(ChaosAction, ActionConfig)>,
                         p: Progress, d: Draw, a: Progress, b: Progress)
    requires ValidDraw(actions, d) && DrawScheduled(config, actions, p, d, a) && DrawScheduled(config, actions, p, d, b)
    ensures a == b
  {
    FirstFreeIsUnique(p.events, config.maxConcurrentFaults,
                      ReadyAt(p.events, p.t + d.dt, config.minInterval), a.t, b.t);
  }

  lemma FirstFreeIsUnique(events: seq<EventDef>, cap: nat, ready: nat, x: nat, y: nat)
    ensures FirstFree(events, cap, ready, x) && FirstFree(events, cap, ready, y) ==> x == y
  {}

  /** The draws determine the schedule. */
  lemma {:induction false} ScheduleIsDetermined(config: RandomChaosConfig, actions: seq<(ChaosAction, ActionConfig)>,
                                                draws: seq<Draw>, p: Progress, q: Progress)
    requires forall i :: 0 <= i < |draws| ==> ValidDraw(actions, draws[i])
    requires Scheduled(config, actions, draws, p) && Scheduled(config, actions, draws, q)
    ensures p == q
    decreases |draws|
  {
    if draws != [] {
      var front, d := draws[..|draws| - 1], draws[|draws| - 1];
      var p0 :| Scheduled(config, actions, front, p0) && !p0.done && DrawScheduled(config, actions, p0, d, p);
      var q0 :| Scheduled(config, actions, front, q0) && !q0.done && DrawScheduled(config, actions, q0, d, q);
      ScheduleIsDetermined(config, actions, front, p0, q0);
      DrawIsDetermined(config, actions, p0, d, p, q);
    }
  }

  // ---------------------------------------------------------------- the generator

  /** The loop invariant. It needs room above the schedule's end: at the largest duration itself saturation
      makes times stand still. */
  ghost predicate GenInv(config: RandomChaosConfig, events: seq<EventDef>, active: seq<Duration>, t: Duration) {
    && |active| <= config.maxConcurrentFaults
    && (config.duration < MAX_DURATION ==>
          && t <= config.duration && Until(events, t) && GoodSchedule(events, config)
          && Tracks(events, active, t))
  }

  lemma GenAdvance(config: RandomChaosConfig, events: seq<EventDef>, active: seq<Duration>, t: Duration, t': Duration)
    requires GenInv(config, events, active, t) && t <= t' <= config.duration
    ensures GenInv(config, events, Filter((x: Duration) => x > t', active), t')
    ensures GenInv(config, events, active, t')
  {
    FilterMembers<Duration>((x: Duration) => x > t', active);
    if config.duration < MAX_DURATION { RetainTracks(events, active, t, t'); }
  }

  lemma GenPush(config: RandomChaosConfig, events: seq<EventDef>, active: seq<Duration>, e: EventDef)
    requires GenInv(config, events, active, e.at) && |active| < config.maxConcurrentFaults
    requires config.duration < MAX_DURATION && events != [] ==> events[|events| - 1].at + config.minInterval <= e.at
    ensures GenInv(config, events + [e], active + [Expiry(e)], e.at)
  {
    if config.duration < MAX_DURATION { PushKeepsCap(events, e, active, config.maxConcurrentFaults); }
  }

  lemma {:induction false} CountAboveAll(active: seq<Duration>, tau: nat)
    requires forall i :: 0 <= i < |active| ==> active[i] > tau
    ensures CountAbove(active, tau) == |active|
  {
    if active != [] { CountAboveAll(active[..|active| - 1], tau); }
  }

  lemma {:induction false} CountAboveSome(active: seq<Duration>, tau: nat, x: Duration)
    requires x in active && x <= tau
    ensures CountAbove(active, tau) < |active|
  {
    CountAboveBound(active[..|active| - 1], tau);
    if active[|active| - 1] != x { CountAboveSome(active[..|active| - 1], tau, x); }
  }

  /** Until the earliest expiry the tracked faults are all active; then one is not. */
  lemma FreeAtEarliest(config: RandomChaosConfig, events: seq<EventDef>, active: seq<Duration>, t: Duration)
    requires config.duration < MAX_DURATION && GenInv(config, events, active, t)
    requires active != [] && |active| >= config.maxConcurrentFaults && forall x :: x in active ==> x > t
    ensures if Earliest(active) <= config.duration
      then FirstFree(events, config.maxConcurrentFaults, t, Earliest(active))
      else NeverFree(events, config.maxConcurrentFaults, t, config.duration)
  {
    var earliest := Earliest(active);
    forall tau: nat | t <= tau < earliest && tau < MAX_DURATION
      ensures ActiveAt(events, tau) >= config.maxConcurrentFaults
    {
      assert forall i :: 0 <= i < |active| ==> active[i] in active;
      CountAboveAll(active, tau);
    }
    if earliest <= config.duration { CountAboveSome(active, earliest, earliest); }
  }

  lemma FreeNow(config: RandomChaosConfig, events: seq<EventDef>, active: seq<Duration>, t: Duration)
    requires config.duration < MAX_DURATION && GenInv(config, events, active, t)
    requires |active| < config.maxConcurrentFaults
    ensures FirstFree(events, config.maxConcurrentFaults, t, t)
    ensures !NeverFree(events, config.maxConcurrentFaults, t, config.duration)
  {
    CountAboveBound(active, t);
    assert ActiveAt(events, t) < config.maxConcurrentFaults;
  }

  lemma ScheduledSnoc(config: RandomChaosConfig, actions: seq<(ChaosAction, ActionConfig)>, draws: seq<Draw>, i: nat,
                      p: Progress, p': Progress)
    requires i < |draws| && forall k :: 0 <= k < |draws| ==> ValidDraw(actions, draws[k])
    requires Scheduled(config, actions, draws[..i], p) && !p.done && DrawScheduled(config, actions, p, draws[i], p')
    ensures Scheduled(config, actions, draws[..i + 1], p')
  {
    assert draws[..i + 1][..i] == draws[..i];
  }

  /** What the method promises: its result is the schedule that the draws it consumed determine. */
  ghost predicate Generated(config: RandomChaosConfig, draws: seq<Draw>, events: seq<EventDef>, done: bool)
    requires forall i :: 0 <= i < |draws| ==> ValidDraw(KnownActions(config.actions), draws[i])
  {
    exists n, t :: 0 <= n <= |draws| && (done || n == |draws|)
      && Scheduled(config, KnownActions(config.actions), draws[..n], Progress(events, t, done))
  }

  /** Placing the draw's event at `at` is what it asks for. */
  lemma Placed(config: RandomChaosConfig, actions: seq<(ChaosAction, ActionConfig)>, events: seq<EventDef>, t: Duration,
               d: Draw, ready: Duration, at: Duration, event: EventDef)
    requires ValidDraw(actions, d) && ready == ReadyAt(events, t + d.dt, config.minInterval) <= config.duration
    requires !Impossible(actions[d.action].0, actions[d.action].1) && at <= config.duration
    requires FirstFree(events, config.maxConcurrentFaults, ready, at)
    requires event == BuildEventDef(actions[d.action].0, at, Target(actions[d.action].1, d), actions[d.action].1,
                                    if at == ready then d.params else d.postponed)
    ensures DrawScheduled(config, actions, Progress(events, t, false), d, Progress(events + [event], at, false))
  {
    assert ActiveAt(events, at) < config.maxConcurrentFaults;
  }

  lemma DrawnIsSampled(actions: seq<(ChaosAction, ActionConfig)>, events: seq<EventDef>, d: Draw, at: Duration,
                       p: Params)
    requires ValidDraw(actions, d) && AllSampled(actions, events)
    requires !Impossible(actions[d.action].0, actions[d.action].1) && ValidParams(actions[d.action].1, p)
    ensures
      var (action, cfg) := actions[d.action];
      AllSampled(actions, events + [BuildEventDef(action, at, Target(cfg, d), cfg, p)])
  {
    var (action, cfg) := actions[d.action];
    BuildSamples(action, at, cfg, Target(cfg, d), p);
    SampledSnoc(actions, events, BuildEventDef(action, at, Target(cfg, d), cfg, p), d.action);
  }

  /** When the next event may happen, if that is before the end of the schedule. */
  method NextArrival(config: RandomChaosConfig, events: seq<EventDef>, t: Duration, dt: Duration)
    returns (now: Option<Duration>)
    requires config.duration < MAX_DURATION ==> Until(events, t)
    ensures now.Some? ==> t <= now.value <= config.duration
    ensures config.duration < MAX_DURATION ==>
      var ready := ReadyAt(events, t + dt, config.minInterval);
      if ready <= config.duration then now == Some(ready) else now == None
    ensures now.Some? && config.duration < MAX_DURATION ==>
      && t + dt <= now.value && (events != [] ==> events[|events| - 1].at + config.minInterval <= now.value)
      && (now.value == t + dt || (events != [] && now.value == events[|events| - 1].at + config.minInterval))
    ensures now.None? && config.duration < MAX_DURATION ==>
      t + dt > config.duration || (events != [] && events[|events| - 1].at + config.minInterval > config.duration)
  {
    var at := SaturatingAdd(t, dt);
    if at > config.duration {
      return None;
    }
    if events != [] {
      var lastAt := events[|events| - 1].at;
      if SaturatingSub(at, lastAt) < config.minInterval {
        at := SaturatingAdd(lastAt, config.minInterval);
        if at > config.duration {
          return None;
        }
      }
    }
    return Some(at);
  }

  /** As many faults as allowed are active: the event is put off until the first of them expires, if that is before
      the end of the schedule. */
  method Postpone(config: RandomChaosConfig, actions: seq<(ChaosAction, ActionConfig)>,
                  events: seq<EventDef>, t: Duration, now: Duration, live: seq<Duration>, d: Draw)
    returns (events': seq<EventDef>, t': Duration, active': seq<Duration>, done: bool)
    requires ValidDraw(actions, d) && !Impossible(actions[d.action].0, actions[d.action].1)
    requires GenInv(config, events, live, now) && AllSampled(actions, events)
    requires live != [] && |live| >= config.maxConcurrentFaults && forall x :: x in live ==> x > now
    requires now <= config.duration
    requires config.duration < MAX_DURATION ==> now == ReadyAt(events, t + d.dt, config.minInterval)
    ensures if done then events' == events else
      t' <= config.duration && GenInv(config, events', active', t') && AllSampled(actions, events')
    ensures config.duration < MAX_DURATION && !done ==>
      DrawScheduled(config, actions, Progress(events, t, false), d, Progress(events', t', done))
    ensures config.duration < MAX_DURATION && done ==>
      NeverFree(events, config.maxConcurrentFaults, now, config.duration)
  {
    if config.duration < MAX_DURATION { FreeAtEarliest(config, events, live, now); }
    var (action, cfg) := actions[d.action];
    var earliest := Earliest(live);
    if earliest > config.duration {
      return events, now, live, true;
    }
    var event := BuildEventDef(action, earliest, Target(cfg, d), cfg, d.postponed);
    DrawnIsSampled(actions, events, d, earliest, d.postponed);
    GenAdvance(config, events, live, now, earliest);
    FilterDrops<Duration>((x: Duration) => x > earliest, live, earliest);
    var rest := Filter((x: Duration) => x > earliest, live);
    GenPush(config, events, rest, event);
    if config.duration < MAX_DURATION { Placed(config, actions, events, t, d, now, earliest, event); }
    return events + [event], earliest, rest + [Expiry(event)], false;
  }

  /** One turn of the loop. */
  method NextEvent(config: RandomChaosConfig, actions: seq<(ChaosAction, ActionConfig)>,
                   events: seq<EventDef>, t: Duration, active: seq<Duration>, d: Draw)
    returns (events': seq<EventDef>, t': Duration, active': seq<Duration>, done: bool)
    requires ValidDraw(actions, d) && GenInv(config, events, active, t) && t <= config.duration
    requires AllSampled(actions, events)
    ensures t' <= config.duration && GenInv(config, events', active', t') && AllSampled(actions, events')
    ensures config.duration < MAX_DURATION ==>
      DrawScheduled(config, actions, Progress(events, t, false), d, Progress(events', t', done))
  {
    events', t', active', done := events, t, active, true;
    var arrival := NextArrival(config, events, t, d.dt);
    if arrival.None? {
      return;
    }
    var now := arrival.value;
    var (action, cfg) := actions[d.action];
    if action == NetworkPartition && |cfg.pool| < 2 {
      GenAdvance(config, events, active, t, now);
      return events, now, active, false;
    }
    var event := BuildEventDef(action, now, Target(cfg, d), cfg, d.params);
    GenAdvance(config, events, active, t, now);
    FilterMembers<Duration>((x: Duration) => x > now, active);
    var live := Filter((x: Duration) => x > now, active);
    if |live| >= config.maxConcurrentFaults {
      if live == [] {
        return events, now, live, false;
      }
      var events1, t1, active1, done1 := Postpone(config, actions, events, t, now, live, d);
      if done1 {
        return;
      }
      return events1, t1, active1, false;
    }
    DrawnIsSampled(actions, events, d, now, d.params);
    GenPush(config, events, live, event);
    if config.duration < MAX_DURATION {
      FreeNow(config, events, live, now);
      Placed(config, actions, events, t, d, now, now, event);
    }
    return events + [event], now, live + [Expiry(event)], false;
  }

  /** `p` is what the first `n` draws make of the schedule. */
  ghost predicate Produced(config: RandomChaosConfig, actions: seq<(ChaosAction, ActionConfig)>, draws: seq<Draw>,
                           n: nat, p: Progress)
    requires n <= |draws| && forall i :: 0 <= i < |draws| ==> ValidDraw(actions, draws[i])
  {
    config.duration < MAX_DURATION ==> Scheduled(config, actions, draws[..n], p)
  }

  lemma ProducedNone(config: RandomChaosConfig, actions: seq<(ChaosAction, ActionConfig)>, draws: seq<Draw>)
    requires forall i :: 0 <= i < |draws| ==> ValidDraw(actions, draws[i])
    ensures GenInv(config, [], [], 0) && Produced(config, actions, draws, 0, Progress([], 0, false))
  {
  }

  lemma ProducedSnoc(config: RandomChaosConfig, actions: seq<(ChaosAction, ActionConfig)>, draws: seq<Draw>, i: nat,
                     p: Progress, p': Progress)
    requires i < |draws| && forall k :: 0 <= k < |draws| ==> ValidDraw(actions, draws[k])
    requires Produced(config, actions, draws, i, p) && !p.done
    requires config.duration < MAX_DURATION ==> DrawScheduled(config, actions, p, draws[i], p')
    ensures Produced(config, actions, draws, i + 1, p')
  {
    if config.duration < MAX_DURATION { ScheduledSnoc(config, actions, draws, i, p, p'); }
  }

  lemma ProducedAll(config: RandomChaosConfig, draws: seq<Draw>, n: nat, p: Progress, active: seq<Duration>)
    requires forall i :: 0 <= i < |draws| ==> ValidDraw(KnownActions(config.actions), draws[i])
    requires n <= |draws| && (p.done || n == |draws|)
    requires p.t <= MAX_DURATION && GenInv(config, p.events, active, p.t)
    requires Produced(config, KnownActions(config.actions), draws, n, p)
    ensures config.duration < MAX_DURATION ==>
      GoodSchedule(p.events, config) && Generated(config, draws, p.events, p.done)
  {
    assert p == Progress(p.events, p.t, p.done);
  }

  /** The state of the loop after `i` draws. */
  ghost predicate Turned(config: RandomChaosConfig, actions: seq<(ChaosAction, ActionConfig)>, draws: seq<Draw>, i: nat,
                         events: seq<EventDef>, t: Duration, active: seq<Duration>, done: bool)
    requires i <= |draws| && forall k :: 0 <= k < |draws| ==> ValidDraw(actions, draws[k])
  {
    t <= config.duration && GenInv(config, events, active, t) && AllSampled(actions, events) &&
      Produced(config, actions, draws, i, Progress(events, t, done))
  }

  method NextTurn(config: RandomChaosConfig, actions: seq<(ChaosAction, ActionConfig)>, draws: seq<Draw>, i: nat,
                  events: seq<EventDef>, t: Duration, active: seq<Duration>)
    returns (events': seq<EventDef>, t': Duration, active': seq<Duration>, done: bool)
    requires i < |draws| && forall k :: 0 <= k < |draws| ==> ValidDraw(actions, draws[k])
    requires Turned(config, actions, draws, i, events, t, active, false)
    ensures Turned(config, actions, draws, i + 1, events', t', active', done)
  {
    events', t', active', done := NextEvent(config, actions, events, t, active, draws[i]);
    ProducedSnoc(config, actions, draws, i, Progress(events, t, false), Progress(events', t', done));
  }

  method ScheduleEvents(config: RandomChaosConfig, actions: seq<(ChaosAction, ActionConfig)>, draws: seq<Draw>)
    returns (events: seq<EventDef>, done: bool)
    requires actions == KnownActions(config.actions) && forall i :: 0 <= i < |draws| ==> ValidDraw(actions, draws[i])
    ensures AllSampled(actions, events)
    ensures config.duration < MAX_DURATION ==> GoodSchedule(events, config) && Generated(config, draws, events, done)
  {
    events := [];
    var t: Duration := 0;
    var active: seq<Duration> := [];
    done := false;
    var i := 0;
    ProducedNone(config, actions, draws);
    while i < |draws| && !done
      invariant 0 <= i <= |draws| && Turned(config, actions, draws, i, events, t, active, done)
    {
      events, t, active, done := NextTurn(config, actions, draws, i, events, t, active);
      i := i + 1;
    }
    ProducedAll(config, draws, i, Progress(events, t, done), active);
  }

  lemma NoKnownAction(actions: seq<(string, ActionConfig)>)
    ensures KnownActions(actions) == [] <==> forall name, cfg, a :: (name, cfg) in actions ==> !Names(name, a)
  {
    forall a, cfg
      ensures (a, cfg) in KnownActions(actions) <==> exists name :: (name, cfg) in actions && Names(name, a)
    {
      KnownActionsMeaning(actions, a, cfg);
    }
    if KnownActions(actions) != [] {
      var (a, cfg) := KnownActions(actions)[0];
      assert (a, cfg) in KnownActions(actions);
    }
  }

  /** All the time the draws ask to wait. */
  function WaitingTime(draws: seq<Draw>): nat {
    if draws == [] then 0 else WaitingTime(draws[..|draws| - 1]) + draws[|draws| - 1].dt
  }

  /** The clock of a schedule is never behind the waiting times drawn so far, whether or not they led to an event. */
  lemma {:induction false} ClockCoversWaits(config: RandomChaosConfig, actions: seq<(ChaosAction, ActionConfig)>,
                                            draws: seq<Draw>, p: Progress)
    requires forall i :: 0 <= i < |draws| ==> ValidDraw(actions, draws[i])
    requires Scheduled(config, actions, draws, p) && !p.done
    ensures p.t >= WaitingTime(draws)
    decreases |draws|
  {
    if draws != [] {
      var front, d := draws[..|draws| - 1], draws[|draws| - 1];
      var q :| Scheduled(config, actions, front, q) && !q.done && DrawScheduled(config, actions, q, d, p);
      ClockCoversWaits(config, actions, front, q);
    }
  }

  /** The generator over the draws it gets; `done` says whether it stopped by itself, past the end of
      the schedule. However the draws fall, and on both ways an event gets scheduled, the schedule is the one
      the draws determine, and it is within bounds. */
  method GenerateRandomEvents(config: RandomChaosConfig, draws: seq<Draw>)
    returns (r: Result<seq<EventDef>, string>, done: bool)
    requires forall i :: 0 <= i < |draws| && KnownActions(config.actions) != [] ==>
      ValidDraw(KnownActions(config.actions), draws[i])
    ensures r.Err? <==> KnownActions(config.actions) == []
    ensures r.Ok? && config.duration < MAX_DURATION ==>
      GoodSchedule(r.value, config) && Generated(config, draws, r.value, done)
    ensures r.Err? <==> forall name, cfg, a :: (name, cfg) in config.actions ==> !Names(name, a)
    ensures r.Ok? ==> Configured(config, r.value)
    ensures r.Ok? && config.duration < MAX_DURATION ==> FewAtOnce(r.value, config.maxConcurrentFaults)
  {
    NoKnownAction(config.actions);
    var actions := KnownActions(config.actions);
    if actions == [] {
      return Err("no valid actions in random chaos config"), true;
    }
    var events;
    events, done := ScheduleEvents(config, actions, draws);
    SampledIsConfigured(config, events);
    CappedMeansFew(events, config.maxConcurrentFaults);
    r := Ok(events);
  }

  /** With a positive spacing a schedule has at most duration / spacing + 1 events. */
  lemma {:induction false} SpacedTimes(events: seq<EventDef>, gap: Duration, i: nat)
    requires Spaced(events, gap) && i < |events|
    ensures events[i].at >= i * gap
  {
    if i > 0 { SpacedTimes(events, gap, i - 1); }
  }

  lemma ScheduleIsFinite(events: seq<EventDef>, config: RandomChaosConfig)
    requires GoodSchedule(events, config) && config.minInterval > 0
    ensures |events| <= config.duration / config.minInterval + 1
  {
    if events != [] {
      var k := |events| - 1;
      SpacedTimes(events, config.minInterval, k);
      assert k * config.minInterval <= config.duration;
      DivideBound(k, config.minInterval, config.duration);
    }
  }

  lemma DivideBound(k: nat, g: nat, d: nat)
    requires g > 0 && k * g <= d
    ensures k <= d / g
  {
    assert d < (d / g + 1) * g;
    assert k * g < (d / g + 1) * g;
  }
}
