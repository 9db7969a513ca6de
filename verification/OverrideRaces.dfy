/** Concurrent edits of the override table.

Adding entries, removing a node's entries and undraining all read the table, let go of the lock, and publish an
edited copy later, so what they publish may be based on an old table. Publishing a whole table reads nothing.
*/
module OverrideRaces {
  import opened Wrappers
  import opened Lists
  import opened StoreMachine
  import opened HashRing
  import opened Overrides
  import opened Drain

  datatype Edit =
    | Add(news: seq<OverrideEntry>)
    | RemoveNode(node: string)
    | Undrain(node: string)
    | Replace(all: seq<OverrideEntry>)

  function Edited(entries: seq<OverrideEntry>, e: Edit): seq<OverrideEntry> {
    match e
    case Add(news) => Merge(entries, news)
    case RemoveNode(node) => Filter((x: OverrideEntry) => x.nodeId != node, entries)
    case Undrain(node) => Undrained(entries, node)
    case Replace(all) => all
  }

  /** The manager's entries, and the copies that callers have read and not published yet. */
  datatype Manager = Manager(entries: seq<OverrideEntry>, copies: map<nat, seq<OverrideEntry>>)

  function Init(): Manager { Manager([], map[]) }

  /** A write is a publish whose put succeeds. */
  datatype Step = Read(caller: nat) | Write(caller: nat, edit: Edit)

  predicate Enabled(m: Manager, step: Step) {
    step.Write? && !step.edit.Replace? ==> step.caller in m.copies
  }

  function Next(m: Manager, step: Step): Manager
    requires Enabled(m, step)
  {
    match step
    case Read(c) => m.(copies := m.copies[c := m.entries])
    case Write(c, e) => Manager(Edited(if c in m.copies then m.copies[c] else [], e), m.copies - {c})
  }

  predicate ValidRun(steps: seq<Step>)
    decreases |steps|, 0
  {
    steps == [] ||
    (ValidRun(steps[..|steps| - 1]) && Enabled(Exec(steps[..|steps| - 1]), steps[|steps| - 1]))
  }

  function Exec(steps: seq<Step>): Manager
    requires ValidRun(steps)
    decreases |steps|, 1
  {
    if steps == [] then Init() else Next(Exec(steps[..|steps| - 1]), steps[|steps| - 1])
  }

  lemma {:induction false} PrefixIsValid(steps: seq<Step>, n: nat)
    requires ValidRun(steps) && n <= |steps|
    ensures ValidRun(steps[..n])
    decreases |steps|
  {
    if n == |steps| {
      assert steps[..n] == steps;
    } else {
      PrefixIsValid(steps[..|steps| - 1], n);
      assert steps[..|steps| - 1][..n] == steps[..n];
    }
  }

  /** The entries after the first `n` steps. */
  ghost function Table(steps: seq<Step>, n: nat): seq<OverrideEntry>
    requires ValidRun(steps) && n <= |steps|
  {
    PrefixIsValid(steps, n);
    Exec(steps[..n]).entries
  }

  // ---------------------------------------------------------------- what a write is based on

  /** Step `j` is the last one of caller `c` before step `i`, and it is a read. */
  ghost predicate LastRead(steps: seq<Step>, c: nat, j: int, i: int) {
    && 0 <= j < i <= |steps| && steps[j] == Read(c)
    && forall k :: j < k < i ==> steps[k].caller != c
  }

  lemma StepAt(steps: seq<Step>, n: nat)
    requires ValidRun(steps) && n < |steps|
    ensures ValidRun(steps[..n]) && Enabled(Exec(steps[..n]), steps[n])
    ensures ValidRun(steps[..n + 1]) && Exec(steps[..n + 1]) == Next(Exec(steps[..n]), steps[n])
  {
    PrefixIsValid(steps, n + 1);
    assert steps[..n + 1][..n] == steps[..n];
  }

  lemma LastReadStays(steps: seq<Step>, c: nat, n: nat)
    requires 0 < n <= |steps| && steps[n - 1].caller != c
    ensures forall k :: LastRead(steps, c, k, n) <==> LastRead(steps, c, k, n - 1)
  {
  }

  /** A caller's copy is the table as it was at that caller's last read. */
  lemma {:induction false} CopyIsWhatWasRead(steps: seq<Step>, n: nat, c: nat) returns (j: int)
    requires ValidRun(steps) && n <= |steps|
    ensures ValidRun(steps[..n])
    ensures c in Exec(steps[..n]).copies <==> LastRead(steps, c, j, n)
    ensures (exists k :: LastRead(steps, c, k, n)) ==> LastRead(steps, c, j, n)
    ensures LastRead(steps, c, j, n) ==> Exec(steps[..n]).copies[c] == Table(steps, j)
  {
    PrefixIsValid(steps, n);
    j := -1;
    if n > 0 {
      StepAt(steps, n - 1);
      var step := steps[n - 1];
      if step.caller != c {
        j := CopyIsWhatWasRead(steps, n - 1, c);
        LastReadStays(steps, c, n);
      } else if step.Read? {
        j := n - 1;
      }
    }
  }

  /** What a write leaves is its edit of the table that its caller last read, however many other writes came in
      between; reads leave the table alone. */
  lemma WriteEditsWhatWasRead(steps: seq<Step>, i: nat) returns (j: int)
    requires ValidRun(steps) && i < |steps|
    ensures steps[i].Read? ==> Table(steps, i + 1) == Table(steps, i)
    ensures steps[i].Write? && steps[i].edit.Replace? ==> Table(steps, i + 1) == steps[i].edit.all
    ensures steps[i].Write? && !steps[i].edit.Replace? ==>
      LastRead(steps, steps[i].caller, j, i) && Table(steps, i + 1) == Edited(Table(steps, j), steps[i].edit)
  {
    StepAt(steps, i);
    j := CopyIsWhatWasRead(steps, i, steps[i].caller);
  }

  lemma LastReadIsUnique(steps: seq<Step>, c: nat, i: int, j: int, k: int)
    requires LastRead(steps, c, j, i) && LastRead(steps, c, k, i)
    ensures j == k
  {
  }

  // ---------------------------------------------------------------- one entry

  /** What an edit makes of the entries for one slot. */
  lemma EditOf(entries: seq<OverrideEntry>, e: Edit, s: Slot)
    ensures Of(Edited(entries, e), s) ==
      match e
      case Add(news) => if Of(news, s) == [] then Of(entries, s) else [LastOf(news, s)]
      case RemoveNode(node) => Filter((x: OverrideEntry) => x.nodeId != node, Of(entries, s))
      case Undrain(node) => Filter((x: OverrideEntry) => x.reason != DrainTag(node), Of(entries, s))
      case Replace(all) => Of(all, s)
  {
    match e
    case Add(news) => MergeOf(entries, news, s);
    case RemoveNode(node) =>
      FiltersCommute((x: OverrideEntry) => x.slot == s, (x: OverrideEntry) => x.nodeId != node, entries);
    case Undrain(node) =>
      FiltersCommute((x: OverrideEntry) => x.slot == s, (x: OverrideEntry) => x.reason != DrainTag(node), entries);
    case Replace(_) =>
  }

  lemma FiltersCommute<T>(p: T -> bool, q: T -> bool, s: seq<T>)
    ensures Filter(p, Filter(q, s)) == Filter(q, Filter(p, s))
  {
    var both := (x: T) => p(x) && q(x);
    FilterTwice(p, q, both, s);
    FilterTwice(q, p, both, s);
  }

  /** An edit that does not do away with `x`: no new entry for its slot, not the removal of its node, not the
      undoing of the drain that made it, and not a whole new table. */
  predicate Leaves(e: Edit, x: OverrideEntry) {
    match e
    case Add(news) => Of(news, x.slot) == []
    case RemoveNode(node) => x.nodeId != node
    case Undrain(node) => x.reason != DrainTag(node)
    case Replace(_) => false
  }

  /** An edit that brings `x` itself. */
  predicate Brings(e: Edit, x: OverrideEntry) {
    match e
    case Add(news) => x in news
    case Replace(all) => x in all
    case _ => false
  }

  /** `x` is the one entry of its slot. */
  ghost predicate InForce(entries: seq<OverrideEntry>, x: OverrideEntry) { Of(entries, x.slot) == [x] }

  lemma InForceIsFound(entries: seq<OverrideEntry>, x: OverrideEntry)
    requires x in entries ==> InForce(entries, x)
    ensures InForce(entries, x) <==> FindOverride(entries, x.slot) == Some(x)
    ensures InForce(entries, x) <==> x in entries
  {
    FindIsFirstOf(entries, x.slot);
    FilterMembers((e: OverrideEntry) => e.slot == x.slot, entries);
    if FindOverride(entries, x.slot) == Some(x) { assert x in Of(entries, x.slot); }
    if InForce(entries, x) { assert x in Of(entries, x.slot); }
  }

  /** An edit that does not bring `x` leaves it in force exactly if it was and the edit leaves it. */
  lemma EditKeeps(entries: seq<OverrideEntry>, e: Edit, x: OverrideEntry)
    requires !Brings(e, x) && (x in entries ==> InForce(entries, x))
    ensures InForce(Edited(entries, e), x) <==> InForce(entries, x) && Leaves(e, x)
    ensures x in Edited(entries, e) ==> InForce(Edited(entries, e), x)
  {
    var s := x.slot;
    EditOf(entries, e, s);
    InForceIsFound(entries, x);
    FilterMembers((y: OverrideEntry) => y.slot == s, entries);
    FilterMembers((y: OverrideEntry) => y.slot == s, Edited(entries, e));
    match e
    case Add(news) => FilterMembers((y: OverrideEntry) => y.slot == s, news);
    case RemoveNode(node) =>
      FilterMembers((y: OverrideEntry) => y.nodeId != node, Of(entries, s));
      if InForce(entries, x) { FilterOne((y: OverrideEntry) => y.nodeId != node, x); }
    case Undrain(node) =>
      FilterMembers((y: OverrideEntry) => y.reason != DrainTag(node), Of(entries, s));
      if InForce(entries, x) { FilterOne((y: OverrideEntry) => y.reason != DrainTag(node), x); }
    case Replace(all) => FilterMembers((y: OverrideEntry) => y.slot == s, all);
  }

  lemma FilterOne<T>(p: T -> bool, x: T)
    ensures Filter(p, [x]) == if p(x) then [x] else []
  {
    assert [x][1..] == [];
  }

  /** Step `d` adds `x`, as the last of its entries for the slot, and no other write brings it. */
  ghost predicate AddsOnly(steps: seq<Step>, d: nat, x: OverrideEntry) {
    && d < |steps| && steps[d].Write? && steps[d].edit.Add?
    && Of(steps[d].edit.news, x.slot) != [] && LastOf(steps[d].edit.news, x.slot) == x
    && forall i :: 0 <= i < |steps| && i != d && steps[i].Write? ==> !Brings(steps[i].edit, x)
  }

  /** The table after `n` steps goes back to step `d`, from each write to the read it is based on, through writes
      that leave `x`. */
  ghost predicate Traces(steps: seq<Step>, n: nat, d: nat, x: OverrideEntry)
    requires n <= |steps|
  {
    && n > 0
    && (steps[n - 1].Read? ==> Traces(steps, n - 1, d, x))
    && (steps[n - 1].Write? && n - 1 != d ==>
          && Leaves(steps[n - 1].edit, x)
          && exists j :: LastRead(steps, steps[n - 1].caller, j, n - 1) && Traces(steps, j, d, x))
  }

  lemma TracesOfEdit(steps: seq<Step>, i: nat, d: nat, x: OverrideEntry, j: nat)
    requires i < |steps| && i != d && steps[i].Write? && LastRead(steps, steps[i].caller, j, i)
    ensures Traces(steps, i + 1, d, x) <==> Leaves(steps[i].edit, x) && Traces(steps, j, d, x)
  {
    forall k | LastRead(steps, steps[i].caller, k, i) ensures k == j {
      LastReadIsUnique(steps, steps[i].caller, i, j, k);
    }
  }

  /** Whatever else is published: the override that one addition brought is in force in exactly the tables that
      trace back to it. */
  lemma {:induction false} InForceIffTraced(steps: seq<Step>, n: nat, d: nat, x: OverrideEntry)
    requires ValidRun(steps) && n <= |steps| && AddsOnly(steps, d, x)
    ensures FindOverride(Table(steps, n), x.slot) == Some(x) <==> Traces(steps, n, d, x)
    ensures InForce(Table(steps, n), x) <==> Traces(steps, n, d, x)
    ensures x in Table(steps, n) ==> InForce(Table(steps, n), x)
    decreases n
  {
    if n == 0 {
      assert steps[..0] == [];
    } else {
      var i := n - 1;
      var j := WriteEditsWhatWasRead(steps, i);
      if steps[i].Read? {
        InForceIffTraced(steps, i, d, x);
      } else if i == d {
        InForceIffTraced(steps, j, d, x);
        EditOf(Table(steps, j), steps[i].edit, x.slot);
      } else if steps[i].edit.Replace? {
        EditKeeps([], steps[i].edit, x);
      } else {
        InForceIffTraced(steps, j, d, x);
        EditKeeps(Table(steps, j), steps[i].edit, x);
        TracesOfEdit(steps, i, d, x, j);
      }
    }
    InForceIsFound(Table(steps, n), x);
  }

  // ---------------------------------------------------------------- what lasts

  /** The write at `i` leaves `x` and is based on a table read after step `d`. */
  ghost predicate Harmless(steps: seq<Step>, d: nat, i: nat, x: OverrideEntry)
    requires i < |steps| && steps[i].Write?
  {
    Leaves(steps[i].edit, x) && exists j :: LastRead(steps, steps[i].caller, j, i) && d < j
  }

  ghost predicate OthersHarmless(steps: seq<Step>, d: nat, n: nat, x: OverrideEntry)
    requires n <= |steps|
  {
    forall i :: d < i < n && steps[i].Write? ==> Harmless(steps, d, i, x)
  }

  lemma {:induction false} NotBefore(steps: seq<Step>, n: nat, d: nat, x: OverrideEntry)
    requires n <= d < |steps|
    ensures !Traces(steps, n, d, x)
  {
    if n > 0 {
      NotBefore(steps, n - 1, d, x);
      forall j | 0 <= j < n ensures !Traces(steps, j, d, x) { NotBefore(steps, j, d, x); }
    }
  }

  ghost predicate AllTrace(steps: seq<Step>, d: nat, n: nat, x: OverrideEntry)
    requires n <= |steps|
  {
    forall m :: d < m <= n ==> Traces(steps, m, d, x)
  }

  lemma {:induction false} AllTraceIffHarmless(steps: seq<Step>, d: nat, n: nat, x: OverrideEntry)
    requires d < n <= |steps| && steps[d].Write?
    ensures AllTrace(steps, d, n, x) <==> OthersHarmless(steps, d, n, x)
    decreases n
  {
    if n == d + 1 {
      assert Traces(steps, n, d, x);
    } else {
      var i := n - 1;
      AllTraceIffHarmless(steps, d, i, x);
      OneStepMore(steps, d, i, x);
      if AllTrace(steps, d, i, x) {
        assert Traces(steps, i, d, x);
        if steps[i].Write? { TraceOfWrite(steps, d, i, x); }
      }
    }
  }

  lemma OneStepMore(steps: seq<Step>, d: nat, i: nat, x: OverrideEntry)
    requires d < i < |steps|
    ensures AllTrace(steps, d, i + 1, x) <==> AllTrace(steps, d, i, x) && Traces(steps, i + 1, d, x)
    ensures OthersHarmless(steps, d, i + 1, x) <==>
      OthersHarmless(steps, d, i, x) && (steps[i].Write? ==> Harmless(steps, d, i, x))
  {
  }

  lemma TraceOfWrite(steps: seq<Step>, d: nat, i: nat, x: OverrideEntry)
    requires d < i < |steps| && steps[d].Write? && steps[i].Write? && AllTrace(steps, d, i, x)
    ensures Traces(steps, i + 1, d, x) <==> Harmless(steps, d, i, x)
  {
    forall j | LastRead(steps, steps[i].caller, j, i) ensures Traces(steps, j, d, x) <==> d < j {
      if j <= d { NotBefore(steps, j, d, x); }
    }
  }

  /** An override that one addition brought is in force in every state from then on, if and only if every later
      write leaves it and is based on a table read after it was published. */
  lemma EntryLastsIff(steps: seq<Step>, d: nat, x: OverrideEntry)
    requires ValidRun(steps) && AddsOnly(steps, d, x)
    ensures (forall n :: d < n <= |steps| ==> FindOverride(Table(steps, n), x.slot) == Some(x))
      <==> OthersHarmless(steps, d, |steps|, x)
  {
    AllTraceIffHarmless(steps, d, |steps|, x);
    if AllTrace(steps, d, |steps|, x) {
      forall n | d < n <= |steps| ensures FindOverride(Table(steps, n), x.slot) == Some(x) {
        InForceIffTraced(steps, n, d, x);
      }
    } else {
      var n :| d < n <= |steps| && !Traces(steps, n, d, x);
      InForceIffTraced(steps, n, d, x);
    }
  }

  /** What does away with an override that draining `node` made: a new entry for its slot, the eviction of its
      target, undraining that very node, or a whole new table. */
  lemma LeavesDrain(e: Edit, x: OverrideEntry, node: string)
    requires x.reason == DrainTag(node)
    ensures Leaves(e, x) <==>
      match e
      case Add(news) => !Mentions(news, x.slot)
      case RemoveNode(target) => x.nodeId != target
      case Undrain(other) => other != node
      case Replace(_) => false
  {
    match e
    case Add(news) => FindIsFirstOf(news, x.slot);
    case Undrain(other) =>
      assert DrainTag(other)[6..] == other && DrainTag(node)[6..] == node;
    case _ =>
  }

  /** The same for a drain: each of its overrides lasts exactly as long as nobody does away with it, or publishes
      from a table read before the drain. */
  lemma DrainLastsIff(steps: seq<Step>, d: nat, x: OverrideEntry, node: string, assignments: map<Slot, string>,
                      order: seq<Slot>, nodes: seq<NodeDescriptor>, rf: nat, score: Score)
    requires ValidRun(steps) && d < |steps| && steps[d].Write?
    requires Enumerates(order, assignments.Keys) && forall s :: s in order ==> s in assignments
    requires steps[d].edit == Add(ComputeDrainOverrides(node, assignments, order, nodes, rf, score))
    requires x in steps[d].edit.news
    requires forall i :: 0 <= i < |steps| && i != d && steps[i].Write? ==> !Brings(steps[i].edit, x)
    ensures x.reason == DrainTag(node)
    ensures (forall n :: d < n <= |steps| ==> FindOverride(Table(steps, n), x.slot) == Some(x))
      <==> OthersHarmless(steps, d, |steps|, x)
  {
    DrainOverridesShape(node, assignments, order, nodes, rf, score);
    OfDistinct(steps[d].edit.news, x);
    EntryLastsIff(steps, d, x);
  }

  // ---------------------------------------------------------------- one edit after the other

  /** The edits of the writes applied one after the other. */
  ghost function Serial(steps: seq<Step>, n: nat): seq<OverrideEntry>
    requires n <= |steps|
  {
    if n == 0 then []
    else if steps[n - 1].Read? then Serial(steps, n - 1)
    else Edited(Serial(steps, n - 1), steps[n - 1].edit)
  }

  /** Nobody writes between step `i` and the read it is based on. */
  ghost predicate FreshAt(steps: seq<Step>, i: nat)
    requires i < |steps|
  {
    forall j, k :: LastRead(steps, steps[i].caller, j, i) && j < k < i ==> steps[k].Read?
  }

  /** Every write that needs to read did so after the write before it. */
  ghost predicate FreshReads(steps: seq<Step>) {
    forall i :: 0 <= i < |steps| && steps[i].Write? && !steps[i].edit.Replace? ==> FreshAt(steps, i)
  }

  lemma {:induction false} OnlyReads(steps: seq<Step>, j: nat, i: nat)
    requires ValidRun(steps) && j <= i <= |steps| && forall k :: j <= k < i ==> steps[k].Read?
    ensures Table(steps, i) == Table(steps, j)
    decreases i
  {
    if j < i {
      OnlyReads(steps, j, i - 1);
      var k := WriteEditsWhatWasRead(steps, i - 1);
    }
  }

  lemma {:induction false} FreshIsSerial(steps: seq<Step>, n: nat)
    requires ValidRun(steps) && FreshReads(steps) && n <= |steps|
    ensures Table(steps, n) == Serial(steps, n)
  {
    if n == 0 {
      assert steps[..0] == [];
    } else {
      FreshIsSerial(steps, n - 1);
      var j := WriteEditsWhatWasRead(steps, n - 1);
      if steps[n - 1].Write? && !steps[n - 1].edit.Replace? {
        assert FreshAt(steps, n - 1);
        OnlyReads(steps, j, n - 1);
      }
    }
  }

  /** The same callers read and write in the same order; only what they write may differ. */
  ghost predicate SameSchedule(a: seq<Step>, b: seq<Step>) {
    |a| == |b| && forall i :: 0 <= i < |a| ==> SameKind(a[i], b[i])
  }

  predicate SameKind(a: Step, b: Step) {
    && a.caller == b.caller && (a.Read? <==> b.Read?)
    && (a.Write? && b.Write? ==> (a.edit.Replace? <==> b.edit.Replace?))
  }

  lemma {:induction false} ScheduleDecides(a: seq<Step>, b: seq<Step>)
    requires ValidRun(a) && SameSchedule(a, b)
    ensures ValidRun(b) && Exec(a).copies.Keys == Exec(b).copies.Keys
  {
    if a != [] {
      var n := |a| - 1;
      assert SameKind(a[n], b[n]);
      assert SameSchedule(a[..n], b[..n]) by {
        forall i | 0 <= i < n ensures SameKind(a[..n][i], b[..n][i]) { assert SameKind(a[i], b[i]); }
      }
      ScheduleDecides(a[..n], b[..n]);
    }
  }

  lemma ScheduleReads(a: seq<Step>, b: seq<Step>, c: nat, j: int, i: int)
    requires SameSchedule(a, b)
    ensures LastRead(a, c, j, i) <==> LastRead(b, c, j, i)
  {
    assert forall k :: 0 <= k < |a| ==> SameKind(a[k], b[k]);
  }

  lemma FreshnessIsScheduled(a: seq<Step>, b: seq<Step>)
    requires SameSchedule(a, b) && FreshReads(a)
    ensures FreshReads(b)
  {
    forall i | 0 <= i < |b| && b[i].Write? && !b[i].edit.Replace? ensures FreshAt(b, i) {
      assert SameKind(a[i], b[i]) && FreshAt(a, i);
      forall j, k | LastRead(b, b[i].caller, j, i) && j < k < i ensures b[k].Read? {
        ScheduleReads(a, b, a[i].caller, j, i);
        assert SameKind(a[k], b[k]);
      }
    }
  }

  /** The step with its entries exchanged. */
  function Bringing(step: Step, es: seq<OverrideEntry>): Step {
    if step.Read? then step
    else Write(step.caller, if step.edit.Replace? then Replace(es) else Add(es))
  }

  /** The same schedule in which the writes from `k` up to `i` bring `e` and the others nothing. */
  function Marked(steps: seq<Step>, k: nat, i: nat, e: OverrideEntry): (b: seq<Step>)
    ensures SameSchedule(steps, b)
    ensures forall n :: 0 <= n < |b| ==> b[n] == Bringing(steps[n], if k <= n < i then [e] else [])
  {
    seq(|steps|, n requires 0 <= n < |steps| => Bringing(steps[n], if k <= n < i then [e] else []))
  }

  lemma MergeSame(e: OverrideEntry)
    ensures Merge([], [e]) == [e] == Merge([e], [e])
  {
    FilterOne((x: OverrideEntry) => x.slot != e.slot, e);
    assert [e][1..] == [] && [] + [e] == [e];
    assert Merge(OtherSlots([], e.slot) + [e], []) == [e] && Merge(OtherSlots([e], e.slot) + [e], []) == [e];
  }

  lemma {:induction false} MarkedSerial(steps: seq<Step>, k: nat, i: nat, e: OverrideEntry, n: nat)
    requires k < |steps| && steps[k].Write? && n <= i <= |steps|
    ensures Serial(Marked(steps, k, i, e), n) == if n <= k then [] else [e]
  {
    if n > 0 {
      MarkedSerial(steps, k, i, e, n - 1);
      MergeSame(e);
    }
  }

  lemma {:induction false} MarkedTable(steps: seq<Step>, k: nat, i: nat, e: OverrideEntry, n: nat)
    requires ValidRun(steps) && n <= k <= i <= |steps|
    ensures ValidRun(Marked(steps, k, i, e)) && Table(Marked(steps, k, i, e), n) == []
    decreases n
  {
    var b := Marked(steps, k, i, e);
    ScheduleDecides(steps, b);
    if n == 0 {
      assert b[..0] == [];
    } else {
      var j := WriteEditsWhatWasRead(b, n - 1);
      MarkedTable(steps, k, i, e, n - 1);
      if b[n - 1].Write? && !b[n - 1].edit.Replace? { MarkedTable(steps, k, i, e, j); }
    }
  }

  /** A write that another one came before since its read: with some edits the other one is lost. */
  lemma StaleIsLost(steps: seq<Step>, i: nat, j: int, k: nat, e: OverrideEntry) returns (b: seq<Step>)
    requires ValidRun(steps) && i < |steps| && steps[i].Write? && !steps[i].edit.Replace?
    requires LastRead(steps, steps[i].caller, j, i) && j < k < i && steps[k].Write?
    ensures SameSchedule(steps, b) && ValidRun(b) && Table(b, i + 1) == [] && Serial(b, i + 1) == [e]
  {
    b := Marked(steps, k, i, e);
    MarkedSerial(steps, k, i, e, i);
    MarkedTable(steps, k, i, e, j);
    assert SameKind(steps[i], b[i]);
    var j' := WriteEditsWhatWasRead(b, i);
    ScheduleReads(steps, b, steps[i].caller, j, i);
    LastReadIsUnique(b, steps[i].caller, i, j, j');
  }

  /** Every table of the run is as if the edits had been made one after the other. */
  ghost predicate IsSerial(steps: seq<Step>) {
    ValidRun(steps) && forall n :: 0 <= n <= |steps| ==> Table(steps, n) == Serial(steps, n)
  }

  /** Whatever the callers write, the tables are as if their edits had been made one after the other, if and only
      if every write is based on the table that the write before it left. */
  lemma NothingLostIff(steps: seq<Step>)
    requires ValidRun(steps)
    ensures FreshReads(steps) <==> forall b :: SameSchedule(steps, b) ==> IsSerial(b)
  {
    if FreshReads(steps) {
      forall b | SameSchedule(steps, b) ensures IsSerial(b) {
        ScheduleDecides(steps, b);
        FreshnessIsScheduled(steps, b);
        forall n | 0 <= n <= |b| ensures Table(b, n) == Serial(b, n) { FreshIsSerial(b, n); }
      }
    } else {
      var i :| 0 <= i < |steps| && steps[i].Write? && !steps[i].edit.Replace? && !FreshAt(steps, i);
      var j, k :| LastRead(steps, steps[i].caller, j, i) && j < k < i && !steps[k].Read?;
      var b := StaleIsLost(steps, i, j, k, OverrideEntry(Slot(0, 0), "", ""));
      assert Table(b, i + 1) != Serial(b, i + 1);
    }
  }

  lemma Extend(front: seq<Step>, step: Step)
    requires ValidRun(front) && Enabled(Exec(front), step)
    ensures ValidRun(front + [step]) && Exec(front + [step]) == Next(Exec(front), step)
  {
    assert (front + [step])[..|front|] == front;
  }

  /** Two callers that read before either writes: both edit the empty table. */
  lemma TwoReaders(a: Edit, b: Edit) returns (steps: seq<Step>)
    requires !a.Replace? && !b.Replace?
    ensures steps == [Read(0), Read(1), Write(0, a), Write(1, b)] && ValidRun(steps)
    ensures Table(steps, 3) == Edited([], a) && Table(steps, 4) == Edited([], b)
  {
    var s0: seq<Step> := [];
    var s1 := s0 + [Read(0)];
    var s2 := s1 + [Read(1)];
    var s3 := s2 + [Write(0, a)];
    Extend(s0, Read(0));
    Extend(s1, Read(1));
    assert Exec(s2) == Manager([], map[0 := [], 1 := []]);
    Extend(s2, Write(0, a));
    Extend(s3, Write(1, b));
    steps := s3 + [Write(1, b)];
    assert steps[..3] == s3 && steps[..4] == steps;
  }

  /** It does happen: two callers read, both publish additions for different slots, and the first is gone. */
  lemma AdditionIsLost(news: seq<OverrideEntry>, others: seq<OverrideEntry>, s: Slot) returns (steps: seq<Step>)
    requires Of(news, s) != [] && Of(others, s) == []
    ensures steps == [Read(0), Read(1), Write(0, Add(news)), Write(1, Add(others))]
    ensures ValidRun(steps)
    ensures FindOverride(Table(steps, 3), s) == Some(LastOf(news, s)) && FindOverride(Table(steps, 4), s) == None
  {
    steps := TwoReaders(Add(news), Add(others));
    MergeDecides([], news, s);
    MergeDecides([], others, s);
  }
}
