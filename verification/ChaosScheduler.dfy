/** The chaos event loop: one-shot and periodic events merged into one timeline. */
module ChaosScheduler {
  import opened Lists
  import opened Wrappers
  import opened Sorting

  /** When an event is to happen: at a time, or periodically, or both. */
  datatype Timing = Timing(at: Option<nat>, every: Option<nat>)

  datatype Source = Fixed | Random

  datatype ScheduledEvent = ScheduledEvent(timing: Timing, nextFire: nat, fired: bool, source: Source)

  datatype Firing = Firing(idx: nat, time: nat)

  function First(d: Timing): nat {
    match d.at
    case Some(t) => t
    case None => if d.every.Some? then d.every.value else 0
  }

  function Fresh(d: Timing, source: Source): ScheduledEvent { ScheduledEvent(d, First(d), false, source) }

  // ---------------------------------------------------------------- occurrences

  /** The time of occurrence `m` of an event. */
  function Occurrence(d: Timing, m: nat): nat {
    First(d) + if d.every.Some? then m * d.every.value else 0
  }

  /** An event with a time happens then, and one that repeats every interval after that; one that only repeats
      happens first after one interval; one with neither happens at once. */
  lemma OccurrenceTimes(d: Timing, m: nat)
    ensures d.every.None? ==> (Occurs(d, m) <==> m == 0)
    ensures d.every.None? ==> Occurrence(d, m) == if d.at.Some? then d.at.value else 0
    ensures d.every.Some? ==> Occurs(d, m)
    ensures d.every.Some? && d.at.Some? ==> Occurrence(d, m) == d.at.value + m * d.every.value
    ensures d.every.Some? && d.at.None? ==> Occurrence(d, m) == (m + 1) * d.every.value
  {
  }

  /** One-shot events occur once. */
  predicate Occurs(d: Timing, m: nat) { d.every.Some? || m == 0 }

  function CountOf(log: seq<Firing>, i: nat): nat {
    if log == [] then 0 else CountOf(log[..|log| - 1], i) + if log[|log| - 1].idx == i then 1 else 0
  }

  /** Earlier, or at the same time but listed first. */
  predicate Precedes(a: Firing, b: Firing) {
    a.time < b.time || (a.time == b.time && a.idx < b.idx)
  }

  /** The next firing of event `i` after `log`. */
  function NextOf(defs: seq<Timing>, log: seq<Firing>, i: nat): Firing
    requires i < |defs|
  {
    Firing(i, Occurrence(defs[i], CountOf(log, i)))
  }

  predicate Pending(defs: seq<Timing>, log: seq<Firing>, i: nat)
    requires i < |defs|
  {
    Occurs(defs[i], CountOf(log, i))
  }

  /** `f` is what the loop picks after `log`: the pending firing that no other precedes. */
  ghost predicate Picked(defs: seq<Timing>, log: seq<Firing>, f: Firing) {
    && f.idx < |defs| && Pending(defs, log, f.idx) && f == NextOf(defs, log, f.idx)
    && forall j :: 0 <= j < |defs| && Pending(defs, log, j) ==> !Precedes(NextOf(defs, log, j), f)
  }

  ghost predicate IsRun(defs: seq<Timing>, log: seq<Firing>) {
    forall k :: 0 <= k < |log| ==> Picked(defs, log[..k], log[k])
  }

  lemma OccurrenceMonotone(d: Timing, m: nat, n: nat)
    requires m <= n
    ensures Occurrence(d, m) <= Occurrence(d, n)
    ensures d.every.Some? && d.every.value > 0 && m < n ==> Occurrence(d, m) < Occurrence(d, n)
  {
    if d.every.Some? {
      var e := d.every.value;
      assert n * e == m * e + (n - m) * e;
    }
  }

  // ---------------------------------------------------------------- a sorted merge

  lemma RunStep(defs: seq<Timing>, log: seq<Firing>, k: nat)
    requires IsRun(defs, log) && k + 1 < |log|
    ensures !Precedes(log[k + 1], log[k])
  {
    var a, b := log[k], log[k + 1];
    assert log[..k + 1][..k] == log[..k];
    if b.idx == a.idx {
      OccurrenceMonotone(defs[a.idx], CountOf(log[..k], a.idx), CountOf(log[..k + 1], a.idx));
    } else {
      assert CountOf(log[..k + 1], b.idx) == CountOf(log[..k], b.idx);
      assert b == NextOf(defs, log[..k], b.idx);
    }
  }

  /** Firings come in order of time, and of listing where times are equal. */
  lemma {:induction false} FiringsInOrder(defs: seq<Timing>, log: seq<Firing>, k: nat, l: nat)
    requires IsRun(defs, log) && k <= l < |log|
    ensures !Precedes(log[l], log[k])
    ensures log[k].time <= log[l].time
  {
    if k < l {
      FiringsInOrder(defs, log, k, l - 1);
      RunStep(defs, log, l - 1);
    }
  }

  /** When something fires, every occurrence that precedes it has fired. */
  lemma EarlierHasFired(defs: seq<Timing>, log: seq<Firing>, k: nat, j: nat, m: nat)
    requires IsRun(defs, log) && k < |log| && j < |defs| && Occurs(defs[j], m)
    requires Precedes(Firing(j, Occurrence(defs[j], m)), log[k])
    ensures m < CountOf(log[..k], j)
  {
    var c := CountOf(log[..k], j);
    if m >= c {
      OccurrenceMonotone(defs[j], c, m);
      assert Pending(defs, log[..k], j);
      assert false;
    }
  }

  /** Firing number `m` of event `j` is its occurrence `m`: each occurrence fires at most once, at its time. */
  lemma {:induction false} FiringOf(defs: seq<Timing>, log: seq<Firing>, k: nat, j: nat, m: nat) returns (l: nat)
    requires IsRun(defs, log) && k <= |log| && m < CountOf(log[..k], j)
    ensures l < k && j < |defs| && Occurs(defs[j], m) && log[l] == Firing(j, Occurrence(defs[j], m))
    ensures CountOf(log[..l], j) == m
    decreases k
  {
    assert log[..k][..k - 1] == log[..k - 1];
    if m < CountOf(log[..k - 1], j) {
      l := FiringOf(defs, log, k - 1, j, m);
    } else {
      l := k - 1;
      assert Picked(defs, log[..l], log[l]);
    }
  }

  predicate ZeroInterval(d: Timing) { d.every == Some(0) }

  /** The merge is exact: before a firing, event `j` has fired its occurrences that precede it and no others;
      the one exception is an event that repeats at interval zero, which fires again at the time it fired. */
  lemma FiredIffPrecedes(defs: seq<Timing>, log: seq<Firing>, k: nat, j: nat, m: nat)
    requires IsRun(defs, log) && k < |log| && j < |defs| && Occurs(defs[j], m)
    ensures Precedes(Firing(j, Occurrence(defs[j], m)), log[k]) ==> m < CountOf(log[..k], j)
    ensures m < CountOf(log[..k], j) ==>
      Precedes(Firing(j, Occurrence(defs[j], m)), log[k]) || (j == log[k].idx && ZeroInterval(defs[j]))
  {
    if Precedes(Firing(j, Occurrence(defs[j], m)), log[k]) {
      EarlierHasFired(defs, log, k, j, m);
    } else if m < CountOf(log[..k], j) {
      var l := FiringOf(defs, log, k, j, m);
      FiringsInOrder(defs, log, l, k);
      assert log[l] == log[k];
      assert Picked(defs, log[..k], log[k]);
      OccurrenceMonotone(defs[j], m, CountOf(log[..k], j));
    }
  }

  // ---------------------------------------------------------------- when an occurrence fires

  /** How many occurrences of event `j` precede `f`; an event repeating at interval zero has no such number. */
  function HowManyPrecede(d: Timing, j: nat, f: Firing): nat
    requires !ZeroInterval(d)
  {
    var bound := if j < f.idx then f.time + 1 else f.time;
    if bound <= First(d) then 0
    else match d.every
      case None => 1
      case Some(e) => (bound - 1 - First(d)) / e + 1
  }

  lemma HowManyPrecedeIs(d: Timing, j: nat, f: Firing, m: nat)
    requires !ZeroInterval(d)
    ensures m < HowManyPrecede(d, j, f) <==> Occurs(d, m) && Precedes(Firing(j, Occurrence(d, m)), f)
  {
    var bound := if j < f.idx then f.time + 1 else f.time;
    assert Precedes(Firing(j, Occurrence(d, m)), f) <==> Occurrence(d, m) < bound;
    if d.every.Some? && bound > First(d) {
      DivCount(bound - 1 - First(d), d.every.value, m);
    } else if d.every.Some? {
      assert m * d.every.value >= 0;
    }
  }

  lemma DivCount(span: nat, e: nat, m: nat)
    requires e > 0
    ensures m <= span / e <==> m * e <= span
  {
    var q := span / e;
    assert q * e <= span < (q + 1) * e;
    if m <= q {
      assert m * e <= q * e;
    } else {
      assert m * e >= (q + 1) * e;
    }
  }

  /** No event before `f` repeats at interval zero. */
  ghost predicate Reachable(defs: seq<Timing>, f: Firing) {
    forall j :: 0 <= j < |defs| && ZeroInterval(defs[j]) ==> !Precedes(Firing(j, First(defs[j])), f)
  }

  /** How many occurrences of the first `n` events precede `f`. */
  ghost function Rank(defs: seq<Timing>, f: Firing, n: nat): nat
    requires n <= |defs|
  {
    if n == 0 then 0
    else Rank(defs, f, n - 1) + if ZeroInterval(defs[n - 1]) then 0 else HowManyPrecede(defs[n - 1], n - 1, f)
  }

  function CountUpTo(log: seq<Firing>, n: nat): nat {
    if n == 0 then 0 else CountUpTo(log, n - 1) + CountOf(log, n - 1)
  }

  lemma {:induction false} CountUpToSnoc(log: seq<Firing>, f: Firing, n: nat)
    ensures CountUpTo(log + [f], n) == CountUpTo(log, n) + if f.idx < n then 1 else 0
  {
    assert (log + [f])[..|log|] == log;
    if n > 0 { CountUpToSnoc(log, f, n - 1); }
  }

  lemma {:induction false} CountUpToIsLength(defs: seq<Timing>, log: seq<Firing>, k: nat)
    requires IsRun(defs, log) && k <= |log|
    ensures CountUpTo(log[..k], |defs|) == k
  {
    if k == 0 {
      CountUpToEmpty(|defs|);
    } else {
      CountUpToIsLength(defs, log, k - 1);
      assert log[..k] == log[..k - 1] + [log[k - 1]];
      assert Picked(defs, log[..k - 1], log[k - 1]);
      CountUpToSnoc(log[..k - 1], log[k - 1], |defs|);
    }
  }

  lemma {:induction false} CountUpToEmpty(n: nat)
    ensures CountUpTo([], n) == 0
  {
    if n > 0 { CountUpToEmpty(n - 1); }
  }

  /** How often the event of firing `k` fired before, if it repeats at interval zero. */
  ghost function Repeats(defs: seq<Timing>, log: seq<Firing>, k: nat): nat
    requires k < |log|
  {
    if log[k].idx < |defs| && ZeroInterval(defs[log[k].idx]) then CountOf(log[..k], log[k].idx) else 0
  }

  lemma CountIsHowMany(defs: seq<Timing>, log: seq<Firing>, k: nat, j: nat)
    requires IsRun(defs, log) && k < |log| && j < |defs|
    ensures CountOf(log[..k], j) ==
      if !ZeroInterval(defs[j]) then HowManyPrecede(defs[j], j, log[k])
      else if j == log[k].idx then Repeats(defs, log, k)
      else 0
  {
    var f, c := log[k], CountOf(log[..k], j);
    if ZeroInterval(defs[j]) {
      ZeroIntervalStarves(defs, log, j, k);
      FiredIffPrecedes(defs, log, k, j, 0);
    } else {
      var h := HowManyPrecede(defs[j], j, f);
      if c < h {
        HowManyPrecedeIs(defs[j], j, f, c);
        FiredIffPrecedes(defs, log, k, j, c);
      }
      if h < c {
        HowManyPrecedeIs(defs[j], j, f, h);
        var l := FiringOf(defs, log, k, j, h);
        FiredIffPrecedes(defs, log, k, j, h);
      }
    }
  }

  lemma {:induction false} CountUpToIsRank(defs: seq<Timing>, log: seq<Firing>, k: nat, n: nat)
    requires IsRun(defs, log) && k < |log| && n <= |defs|
    ensures CountUpTo(log[..k], n) == Rank(defs, log[k], n) + if log[k].idx < n then Repeats(defs, log, k) else 0
  {
    if n > 0 {
      CountUpToIsRank(defs, log, k, n - 1);
      CountIsHowMany(defs, log, k, n - 1);
    }
  }

  /** A firing's position in the log is the number of occurrences that precede it, and of its own repeats at
      interval zero. */
  lemma PositionIsRank(defs: seq<Timing>, log: seq<Firing>, k: nat)
    requires IsRun(defs, log) && k < |log|
    ensures log[k].idx < |defs| && Reachable(defs, log[k])
    ensures k == Rank(defs, log[k], |defs|) + Repeats(defs, log, k)
  {
    assert Picked(defs, log[..k], log[k]);
    forall j | 0 <= j < |defs| && ZeroInterval(defs[j]) ensures !Precedes(Firing(j, First(defs[j])), log[k]) {
      ZeroIntervalStarves(defs, log, j, k);
    }
    CountUpToIsLength(defs, log, k);
    CountUpToIsRank(defs, log, k, |defs|);
  }

  /** A zero-interval event starves everything it precedes: that never fires, in any run. */
  lemma ZeroIntervalStarves(defs: seq<Timing>, log: seq<Firing>, j: nat, k: nat)
    requires IsRun(defs, log) && k < |log| && j < |defs| && ZeroInterval(defs[j])
    ensures !Precedes(Firing(j, First(defs[j])), log[k])
  {
    if Precedes(Firing(j, First(defs[j])), log[k]) {
      EarlierHasFired(defs, log, k, j, CountOf(log[..k], j));
    }
  }

  lemma {:induction false} RankMonotone(defs: seq<Timing>, f: Firing, g: Firing, n: nat)
    requires n <= |defs| && Precedes(f, g)
    ensures Rank(defs, f, n) <= Rank(defs, g, n)
    ensures f.idx < n && !ZeroInterval(defs[f.idx]) && (exists m ::
      Occurs(defs[f.idx], m) && f.time == Occurrence(defs[f.idx], m))
      ==> Rank(defs, f, n) < Rank(defs, g, n)
  {
    if n > 0 {
      RankMonotone(defs, f, g, n - 1);
      var j := n - 1;
      if !ZeroInterval(defs[j]) {
        var a, b := HowManyPrecede(defs[j], j, f), HowManyPrecede(defs[j], j, g);
        HowManyPrecedeIs(defs[j], j, f, b);
        HowManyPrecedeIs(defs[j], j, g, b);
        if j == f.idx && exists m :: Occurs(defs[j], m) && f.time == Occurrence(defs[j], m) {
          var m :| Occurs(defs[j], m) && f.time == Occurrence(defs[j], m);
          HowManyPrecedeIs(defs[j], j, f, m);
          HowManyPrecedeIs(defs[j], j, g, m);
        }
      }
    }
  }

  /** A long enough run fires each occurrence exactly when the ones preceding it have been fired, provided
      no zero-interval event is before it. */
  lemma FiresAtItsRank(defs: seq<Timing>, log: seq<Firing>, i: nat, m: nat)
    requires IsRun(defs, log) && i < |defs| && Occurs(defs[i], m)
    requires var f := Firing(i, Occurrence(defs[i], m)); Reachable(defs, f) && Rank(defs, f, |defs|) < |log|
    ensures var f := Firing(i, Occurrence(defs[i], m)); log[Rank(defs, f, |defs|)] == f
  {
    var f := Firing(i, Occurrence(defs[i], m));
    var k := Rank(defs, f, |defs|);
    var g := log[k];
    assert Picked(defs, log[..k], g);
    PositionIsRank(defs, log, k);
    if Precedes(g, f) {
      RankMonotone(defs, g, f, |defs|);
      assert ZeroInterval(defs[g.idx]) ==> Precedes(Firing(g.idx, First(defs[g.idx])), f);
    } else if Precedes(f, g) {
      EarlierHasFired(defs, log, k, i, m);
      if ZeroInterval(defs[i]) {
        ZeroIntervalStarves(defs, log, i, k);
      } else {
        var l := FiringOf(defs, log, k, i, m);
        PositionIsRank(defs, log, l);
      }
    }
  }

  /** Whenever something is pending the loop has something to pick. */
  lemma {:induction false} SomethingPicked(defs: seq<Timing>, log: seq<Firing>, n: nat) returns (f: Firing)
    requires 0 < n <= |defs| && exists j :: 0 <= j < n && Pending(defs, log, j)
    ensures f.idx < n && Pending(defs, log, f.idx) && f == NextOf(defs, log, f.idx)
    ensures forall j :: 0 <= j < n && Pending(defs, log, j) ==> !Precedes(NextOf(defs, log, j), f)
  {
    var last := NextOf(defs, log, n - 1);
    if exists j :: 0 <= j < n - 1 && Pending(defs, log, j) {
      f := SomethingPicked(defs, log, n - 1);
      if Pending(defs, log, n - 1) && Precedes(last, f) { f := last; }
    } else {
      f := last;
    }
  }

  lemma ExtendRun(defs: seq<Timing>, front: seq<Firing>, j: nat) returns (log: seq<Firing>)
    requires IsRun(defs, front) && j < |defs| && Pending(defs, front, j)
    ensures IsRun(defs, log) && |log| == |front| + 1
  {
    var f := SomethingPicked(defs, front, |defs|);
    log := front + [f];
    IsRunSnoc(defs, front, f);
  }

  /** With a periodic event there are runs of every length. */
  lemma {:induction false} RunOfLength(defs: seq<Timing>, n: nat, j: nat) returns (log: seq<Firing>)
    requires j < |defs| && defs[j].every.Some?
    ensures IsRun(defs, log) && |log| == n
  {
    if n == 0 {
      log := [];
    } else {
      var front := RunOfLength(defs, n - 1, j);
      log := ExtendRun(defs, front, j);
    }
  }

  /** Periodic events or not, runs go on until an occurrence that can fire has fired. */
  lemma {:induction false} RunReaching(defs: seq<Timing>, i: nat, m: nat, n: nat) returns (log: seq<Firing>)
    requires i < |defs| && Occurs(defs[i], m)
    requires var f := Firing(i, Occurrence(defs[i], m)); Reachable(defs, f) && n <= Rank(defs, f, |defs|) + 1
    ensures IsRun(defs, log) && |log| == n
  {
    if n == 0 {
      log := [];
    } else {
      var front := RunReaching(defs, i, m, n - 1);
      if !Pending(defs, front, i) {
        assert front[..|front|] == front;
        var l := FiringOf(defs, front, |front|, i, m);
        PositionIsRank(defs, front, l);
      }
      log := ExtendRun(defs, front, i);
    }
  }

  /** Exactly when an occurrence is certain to fire: every run longer than its rank contains it, if and only
      if no zero-interval event precedes it. There always is such a run. */
  lemma FiresIffReachable(defs: seq<Timing>, i: nat, m: nat)
    requires i < |defs| && Occurs(defs[i], m)
    ensures var f := Firing(i, Occurrence(defs[i], m));
      && (exists log :: IsRun(defs, log) && |log| > Rank(defs, f, |defs|))
      && (Reachable(defs, f) <==> forall log :: IsRun(defs, log) && |log| > Rank(defs, f, |defs|) ==> f in log)
  {
    var f := Firing(i, Occurrence(defs[i], m));
    var n := Rank(defs, f, |defs|) + 1;
    if Reachable(defs, f) {
      var some := RunReaching(defs, i, m, n);
      forall log | IsRun(defs, log) && |log| > Rank(defs, f, |defs|) ensures f in log {
        FiresAtItsRank(defs, log, i, m);
      }
    } else {
      var j :| 0 <= j < |defs| && ZeroInterval(defs[j]) && Precedes(Firing(j, First(defs[j])), f);
      var log := RunOfLength(defs, n, j);
      forall k | 0 <= k < |log| ensures log[k] != f { ZeroIntervalStarves(defs, log, j, k); }
      assert f !in log;
    }
  }

  // ---------------------------------------------------------------- the loop

  /** The fixed schedule followed by the random events. */
  function Listed(fixed: seq<Timing>, random: seq<Timing>): (r: seq<ScheduledEvent>)
    ensures |r| == |fixed| + |random|
    ensures forall i :: 0 <= i < |fixed| ==> r[i] == ScheduledEvent(fixed[i], Occurrence(fixed[i], 0), false, Fixed)
    ensures forall i :: 0 <= i < |random| ==>
      r[|fixed| + i] == ScheduledEvent(random[i], Occurrence(random[i], 0), false, Random)
  {
    seq(|fixed|, i requires 0 <= i < |fixed| => Fresh(fixed[i], Fixed))
    + seq(|random|, i requires 0 <= i < |random| => Fresh(random[i], Random))
  }

  predicate EarlierFirst(a: ScheduledEvent, b: ScheduledEvent) { a.nextFire <= b.nextFire }

  /** In order of their first firing. */
  function Unified(fixed: seq<Timing>, random: seq<Timing>): seq<ScheduledEvent> {
    Sort(EarlierFirst, Listed(fixed, random))
  }

  /** The events whose next firing is at `t`. */
  ghost function FiringAt(t: nat): ScheduledEvent -> bool { (e: ScheduledEvent) => e.nextFire == t }

  /** All fixed and random events are there, as often as they are listed; earlier ones come first, and those that
      fire first at the same time keep the order in which they are listed, the fixed ones ahead. */
  lemma UnifiedMeaning(fixed: seq<Timing>, random: seq<Timing>)
    ensures multiset(Unified(fixed, random)) == multiset(Listed(fixed, random))
    ensures forall i, j :: 0 <= i < j < |Unified(fixed, random)| ==>
      Unified(fixed, random)[i].nextFire <= Unified(fixed, random)[j].nextFire
    ensures forall t: nat :: Filter(FiringAt(t), Unified(fixed, random)) == Filter(FiringAt(t), Listed(fixed, random))
  {
    SortPermutes(EarlierFirst, Listed(fixed, random));
    SortSorted(EarlierFirst, Listed(fixed, random));
    forall i, j | 0 <= i < j < |Unified(fixed, random)|
      ensures Unified(fixed, random)[i].nextFire <= Unified(fixed, random)[j].nextFire
    {
      assert EarlierFirst(Unified(fixed, random)[i], Unified(fixed, random)[j]);
    }
    forall t: nat ensures Filter(FiringAt(t), Unified(fixed, random)) == Filter(FiringAt(t), Listed(fixed, random)) {
      SortIsStable(EarlierFirst, FiringAt(t), Listed(fixed, random));
    }
  }

  function Timings(events: seq<ScheduledEvent>): (defs: seq<Timing>)
    ensures |defs| == |events|
    ensures forall i :: 0 <= i < |events| ==> defs[i] == events[i].timing
  {
    seq(|events|, i requires 0 <= i < |events| => events[i].timing)
  }

  /** The scheduling state of event `e` after it has fired `c` times. */
  ghost predicate AfterFirings(e: ScheduledEvent, c: nat) {
    e.nextFire == Occurrence(e.timing, c) && (e.fired <==> c > 0)
  }

  ghost predicate AgreesOn(events: seq<ScheduledEvent>, defs: seq<Timing>, log: seq<Firing>) {
    Timings(events) == defs && forall i :: 0 <= i < |events| ==> AfterFirings(events[i], CountOf(log, i))
  }

  /** An event that has just fired. */
  function Fired(e: ScheduledEvent): ScheduledEvent {
    e.(fired := true, nextFire := e.nextFire + if e.timing.every.Some? then e.timing.every.value else 0)
  }

  lemma FiredAgain(e: ScheduledEvent, c: nat)
    requires AfterFirings(e, c)
    ensures AfterFirings(Fired(e), c + 1)
  {
    if e.timing.every.Some? {
      var v := e.timing.every.value;
      assert (c + 1) * v == c * v + v;
    }
  }

  lemma CountOfSnoc(log: seq<Firing>, f: Firing, i: nat)
    ensures CountOf(log + [f], i) == CountOf(log, i) + if f.idx == i then 1 else 0
  {
    assert (log + [f])[..|log|] == log;
  }

  /** Firing an event keeps the agreement. */
  lemma FireOne(events: seq<ScheduledEvent>, defs: seq<Timing>, log: seq<Firing>, f: Firing)
    requires AgreesOn(events, defs, log) && f.idx < |events|
    ensures AgreesOn(events[f.idx := Fired(events[f.idx])], defs, log + [f])
  {
    var events' := events[f.idx := Fired(events[f.idx])];
    assert Timings(events') == Timings(events);
    forall i | 0 <= i < |events| ensures AfterFirings(events'[i], CountOf(log + [f], i)) {
      CountOfSnoc(log, f, i);
      assert AfterFirings(events[i], CountOf(log, i));
      FiredAgain(events[i], CountOf(log, i));
    }
  }

  /** What an event knows of itself is whether it is pending, and when it fires next. */
  lemma AgreesMeaning(events: seq<ScheduledEvent>, defs: seq<Timing>, log: seq<Firing>, j: nat)
    requires AgreesOn(events, defs, log) && IsRun(defs, log) && j < |events|
    ensures Pending(defs, log, j) <==> !(events[j].fired && events[j].timing.every.None?)
    ensures NextOf(defs, log, j) == Firing(j, events[j].nextFire)
  {
    assert AfterFirings(events[j], CountOf(log, j));
    OneShotFiresOnce(defs, log, j);
  }

  class ChaosScheduler {
    var events: seq<ScheduledEvent>

    /** The events agree with what has been fired. */
    ghost predicate Agrees(defs: seq<Timing>, log: seq<Firing>)
      reads this
    {
      AgreesOn(events, defs, log)
    }

    constructor (fixed: seq<Timing>, random: seq<Timing>)
      ensures events == Unified(fixed, random) && multiset(events) == multiset(Listed(fixed, random))
      ensures forall i, j :: 0 <= i < j < |events| ==> events[i].nextFire <= events[j].nextFire
      ensures Agrees(Timings(events), [])
    {
      events := Unified(fixed, random);
      new;
      UnifiedMeaning(fixed, random);
      SortMembers(EarlierFirst, Listed(fixed, random));
      forall i | 0 <= i < |events| ensures AfterFirings(events[i], 0) {
        assert events[i] in Listed(fixed, random);
      }
    }

    /** The first of the unfinished events with the smallest next firing time. */
    method SelectNext() returns (next: Option<nat>)
      ensures next.None? ==> forall j :: 0 <= j < |events| ==> events[j].fired && events[j].timing.every.None?
      ensures next.Some? ==>
        && next.value < |events| && !(events[next.value].fired && events[next.value].timing.every.None?)
        && forall j :: 0 <= j < |events| && !(events[j].fired && events[j].timing.every.None?) ==>
             !Precedes(Firing(j, events[j].nextFire), Firing(next.value, events[next.value].nextFire))
    {
      next := None;
      for i := 0 to |events|
        invariant next.None? ==> forall j :: 0 <= j < i ==> events[j].fired && events[j].timing.every.None?
        invariant next.Some? ==>
          && next.value < i && !(events[next.value].fired && events[next.value].timing.every.None?)
          && forall j :: 0 <= j < i && !(events[j].fired && events[j].timing.every.None?) ==>
               !Precedes(Firing(j, events[j].nextFire), Firing(next.value, events[next.value].nextFire))
      {
        if events[i].fired && events[i].timing.every.None? {
          continue;
        }
        if next.None? || events[i].nextFire < events[next.value].nextFire {
          next := Some(i);
        }
      }
    }

    /** Fires until nothing is left or the scheduler is cancelled, here after `limit` firings. */
    method Run(limit: nat) returns (log: seq<Firing>)
      requires Agrees(Timings(events), [])
      modifies this
      ensures Timings(events) == old(Timings(events)) && Agrees(Timings(events), log)
      ensures IsRun(Timings(events), log) && |log| <= limit
      ensures |log| < limit ==> forall i :: 0 <= i < |events| ==> !Pending(Timings(events), log, i)
    {
      ghost var defs := Timings(events);
      log := [];
      while |log| < limit
        invariant Agrees(defs, log) && IsRun(defs, log) && |log| <= limit
        decreases limit - |log|
      {
        var next := SelectNext();
        forall j | 0 <= j < |events|
          ensures Pending(defs, log, j) <==> !(events[j].fired && events[j].timing.every.None?)
          ensures NextOf(defs, log, j) == Firing(j, events[j].nextFire)
        {
          AgreesMeaning(events, defs, log, j);
        }
        if next.None? {
          return;
        }
        var idx := next.value;
        var f := Firing(idx, events[idx].nextFire);
        assert Picked(defs, log, f);
        IsRunSnoc(defs, log, f);
        FireOne(events, defs, log, f);
        var e := events[idx];
        e := e.(fired := true);
        if e.timing.every.Some? {
          e := e.(nextFire := e.nextFire + e.timing.every.value);
        }
        assert e == Fired(events[idx]);
        events := events[idx := e];
        log := log + [f];
      }
    }
  }

  lemma IsRunSnoc(defs: seq<Timing>, log: seq<Firing>, f: Firing)
    requires IsRun(defs, log) && Picked(defs, log, f)
    ensures IsRun(defs, log + [f])
  {
    forall k | 0 <= k < |log| + 1 ensures Picked(defs, (log + [f])[..k], (log + [f])[k]) {
      assert (log + [f])[..k] == log[..k];
      if k == |log| { assert log[..k] == log; }
    }
  }

  /** A one-shot event fires at most once. */
  lemma OneShotFiresOnce(defs: seq<Timing>, log: seq<Firing>, j: nat)
    requires IsRun(defs, log) && j < |defs|
    ensures defs[j].every.None? ==> CountOf(log, j) <= 1
  {
    if defs[j].every.None? && CountOf(log, j) > 1 {
      assert log[..|log|] == log;
      var l := FiringOf(defs, log, |log|, j, 1);
    }
  }
}
