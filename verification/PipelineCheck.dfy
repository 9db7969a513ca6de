/** The cycle check on processor pipelines: Kahn's algorithm on a multigraph of topics. */
module PipelineCheck {
  import opened Lists
  import opened Wrappers

  datatype ComponentKind = Producer | Consumer | Processor | StorageAgent | AgentComponent | Orchestrator

  datatype Component = Component(kind: ComponentKind, inputTopic: Option<string>, outputTopic: Option<string>)

  datatype Edge = Edge(from: string, to: string)

  /** A processor with both topics is an edge; several may join the same topics, or a topic to itself. */
  function Edges(components: seq<Component>): seq<Edge> {
    if components == [] then []
    else
      var c := components[0];
      if c.kind == Processor && c.inputTopic.Some? && c.outputTopic.Some? then
        [Edge(c.inputTopic.value, c.outputTopic.value)] + Edges(components[1..])
      else Edges(components[1..])
  }

  function Nodes(g: seq<Edge>): set<string> {
    (set e | e in g :: e.from) + (set e | e in g :: e.to)
  }

  // ---------------------------------------------------------------- cycles

  ghost predicate Joined(g: seq<Edge>, p: seq<string>, i: nat)
    requires i < |p| - 1
  {
    Edge(p[i], p[i + 1]) in g
  }

  ghost predicate IsWalk(g: seq<Edge>, p: seq<string>) {
    forall i :: 0 <= i < |p| - 1 ==> Joined(g, p, i)
  }

  lemma WalkSlice(g: seq<Edge>, p: seq<string>, i: nat, j: nat)
    requires IsWalk(g, p) && i <= j <= |p|
    ensures IsWalk(g, p[i..j])
  {
    forall k | 0 <= k < |p[i..j]| - 1 ensures Joined(g, p[i..j], k) { assert Joined(g, p, i + k); }
  }

  /** A walk along at least one edge. */
  ghost predicate IsPath(g: seq<Edge>, p: seq<string>) {
    |p| >= 2 && IsWalk(g, p)
  }

  ghost predicate IsCycle(g: seq<Edge>, p: seq<string>) {
    IsPath(g, p) && p[0] == p[|p| - 1]
  }

  ghost predicate Acyclic(g: seq<Edge>) {
    forall p :: !IsCycle(g, p)
  }

  /** `v` is on a cycle or downstream of one. */
  ghost predicate BehindCycle(g: seq<Edge>, v: string) {
    exists p, c :: IsPath(g, p) && IsCycle(g, c) && p[0] == c[0] && p[|p| - 1] == v
  }

  // ---------------------------------------------------------------- in-degrees

  /** How many edges enter `v` from nodes that are not in `done`. */
  ghost function InDegree(g: seq<Edge>, done: set<string>, v: string): nat {
    if g == [] then 0
    else InDegree(g[..|g| - 1], done, v) + if g[|g| - 1].to == v && g[|g| - 1].from !in done then 1 else 0
  }

  /** The targets of `u`'s edges, in order and with repeats. */
  function Targets(g: seq<Edge>, u: string): seq<string> {
    if g == [] then []
    else if g[|g| - 1].from == u then Targets(g[..|g| - 1], u) + [g[|g| - 1].to]
    else Targets(g[..|g| - 1], u)
  }

  function Occurrences(s: seq<string>, v: string): nat {
    if s == [] then 0 else Occurrences(s[..|s| - 1], v) + if s[|s| - 1] == v then 1 else 0
  }

  lemma OccurrencesSnoc(s: seq<string>, x: string, v: string)
    ensures Occurrences(s + [x], v) == Occurrences(s, v) + if x == v then 1 else 0
  {
    assert (s + [x])[..|s|] == s;
  }

  lemma {:induction false} InDegreeSplit(g: seq<Edge>, done: set<string>, u: string, v: string)
    requires u !in done
    ensures InDegree(g, done, v) == InDegree(g, done + {u}, v) + Occurrences(Targets(g, u), v)
  {
    if g != [] {
      var front, e := g[..|g| - 1], g[|g| - 1];
      InDegreeSplit(front, done, u, v);
      OccurrencesSnoc(Targets(front, u), e.to, v);
    }
  }

  lemma {:induction false} TargetsAreEdges(g: seq<Edge>, u: string, v: string)
    ensures v in Targets(g, u) <==> Edge(u, v) in g
  {
    if g != [] {
      var front, e := g[..|g| - 1], g[|g| - 1];
      TargetsAreEdges(front, u, v);
      assert g == front + [e];
    }
  }

  lemma {:induction false} InDegreeZero(g: seq<Edge>, done: set<string>, v: string)
    ensures InDegree(g, done, v) == 0 <==> forall e :: e in g && e.to == v ==> e.from in done
  {
    if g != [] {
      var front, e := g[..|g| - 1], g[|g| - 1];
      InDegreeZero(front, done, v);
      assert g == front + [e];
    }
  }

  lemma {:induction false} OccurrencesPositive(s: seq<string>, v: string)
    ensures Occurrences(s, v) > 0 <==> v in s
  {
    if s != [] {
      OccurrencesPositive(s[..|s| - 1], v);
      assert s == s[..|s| - 1] + [s[|s| - 1]];
    }
  }

  lemma {:induction false} OccurrencesFromFront(s: seq<string>, v: string)
    requires s != []
    ensures Occurrences(s, v) == (if s[0] == v then 1 else 0) + Occurrences(s[1..], v)
  {
    if |s| == 1 {
      assert s[..0] == [] && s[1..] == [];
    } else {
      OccurrencesFromFront(s[..|s| - 1], v);
      assert s[..|s| - 1][1..] == s[1..][..|s[1..]| - 1];
    }
  }

  // ---------------------------------------------------------------- why the algorithm is right

  /** Every edge into a removed node comes from a node removed before it. */
  ghost predicate Topological(g: seq<Edge>, order: seq<string>) {
    forall e, j :: e in g && 0 <= j < |order| && order[j] == e.to ==> exists i :: 0 <= i < j && order[i] == e.from
  }

  lemma {:induction false} PathGoesForward(g: seq<Edge>, order: seq<string>, p: seq<string>, j: nat) returns (i: nat)
    requires Topological(g, order) && IsPath(g, p) && j < |order| && order[j] == p[|p| - 1]
    ensures i < j && order[i] == p[0]
    decreases |p|
  {
    var n := |p| - 2;
    var e := Edge(p[n], p[n + 1]);
    assert Joined(g, p, n);
    i :| 0 <= i < j && order[i] == e.from;
    if n > 0 {
      WalkSlice(g, p, 0, n + 1);
      i := PathGoesForward(g, order, p[0..n + 1], i);
    }
  }

  /** Nothing that was removed is behind a cycle. */
  lemma RemovedIsNotBehindCycle(g: seq<Edge>, order: seq<string>, v: string)
    requires Topological(g, order) && v in order
    ensures !BehindCycle(g, v)
  {
    if BehindCycle(g, v) {
      var p, c :| IsPath(g, p) && IsCycle(g, c) && p[0] == c[0] && p[|p| - 1] == v;
      var j :| 0 <= j < |order| && order[j] == v;
      var i := PathGoesForward(g, order, p, j);
      NoCycleThrough(g, order, c, i);
    }
  }

  lemma {:induction false} NoCycleThrough(g: seq<Edge>, order: seq<string>, c: seq<string>, i: nat)
    requires Topological(g, order) && IsCycle(g, c) && i < |order| && order[i] == c[0]
    ensures false
  {
    var k := PathGoesForward(g, order, c, i);
    NoCycleThrough(g, order, c, k);
  }

  /** Each of these nodes has an edge from one of them. */
  ghost predicate SelfFed(g: seq<Edge>, left: set<string>) {
    forall v {:trigger HasFeeder(g, left, v)} :: v in left ==> HasFeeder(g, left, v)
  }

  ghost predicate HasFeeder(g: seq<Edge>, left: set<string>, v: string) {
    exists u :: u in left && Edge(u, v) in g
  }

  /** A walk of any length ending in `v`, backwards through a self-fed set. */
  lemma {:induction false} WalkBack(g: seq<Edge>, left: set<string>, v: string, n: nat) returns (p: seq<string>)
    requires SelfFed(g, left) && v in left
    ensures |p| == n + 1 && p[n] == v
    ensures (forall i :: 0 <= i < |p| ==> p[i] in left) && IsWalk(g, p)
    decreases n
  {
    if n == 0 {
      p := [v];
    } else {
      assert HasFeeder(g, left, v);
      var u :| u in left && Edge(u, v) in g;
      var q := WalkBack(g, left, u, n - 1);
      p := q + [v];
      forall k | 0 <= k < |p| - 1 ensures Joined(g, p, k) {
        if k < n - 1 { assert Joined(g, q, k); }
      }
    }
  }

  lemma {:induction false} Pigeonhole(p: seq<string>, s: set<string>) returns (i: nat, j: nat)
    requires |p| > |s| && forall k :: 0 <= k < |p| ==> p[k] in s
    ensures i < j < |p| && p[i] == p[j]
    decreases |p|
  {
    var n := |p| - 1;
    if k :| 0 <= k < n && p[k] == p[n] {
      i, j := k, n;
    } else {
      i, j := Pigeonhole(p[..n], s - {p[n]});
    }
  }

  lemma RepeatIsCycle(g: seq<Edge>, p: seq<string>, i: nat, j: nat)
    requires IsWalk(g, p) && i < j < |p| - 1 && p[i] == p[j]
    ensures BehindCycle(g, p[|p| - 1])
  {
    var c := CycleAt(g, p, i, j);
    var q := p[i..|p|];
    WalkSlice(g, p, i, |p|);
    ReachedFrom(g, q, c);
    assert q[|q| - 1] == p[|p| - 1];
  }

  lemma CycleAt(g: seq<Edge>, p: seq<string>, i: nat, j: nat) returns (c: seq<string>)
    requires IsWalk(g, p) && i < j < |p| && p[i] == p[j]
    ensures IsCycle(g, c) && c[0] == p[i]
  {
    c := p[i..j + 1];
    WalkSlice(g, p, i, j + 1);
    assert c[0] == p[i] && c[|c| - 1] == p[j];
  }

  lemma ReachedFrom(g: seq<Edge>, q: seq<string>, c: seq<string>)
    requires IsPath(g, q) && IsCycle(g, c) && q[0] == c[0]
    ensures BehindCycle(g, q[|q| - 1])
  {
  }

  /** Every node of a self-fed set is behind a cycle. */
  lemma SelfFedIsBehindCycle(g: seq<Edge>, left: set<string>, v: string)
    requires SelfFed(g, left) && v in left
    ensures BehindCycle(g, v)
  {
    var n := |left| + 1;
    var p := WalkBack(g, left, v, n);
    var i, j := Pigeonhole(p[..n], left);
    assert p[i] == p[..n][i] && p[j] == p[..n][j];
    RepeatIsCycle(g, p, i, j);
  }

  // ---------------------------------------------------------------- the algorithm

  ghost predicate InSomeOf(v: string, a: seq<string>, b: seq<string>) { v in a || v in b }

  /** The state of the search: `order` has been removed, `queue` can be removed next, and `inDegree` counts
      the edges from what is left plus those in `rest`, targets still to be counted down. */
  ghost predicate KahnInv(g: seq<Edge>, inDegree: map<string, nat>, queue: seq<string>, order: seq<string>,
                          rest: seq<string>)
  {
    && inDegree.Keys == Nodes(g)
    && Distinct(order + queue)
    && (forall v :: InSomeOf(v, order, queue) ==> v in inDegree)
    && (forall v :: v in inDegree ==> inDegree[v] == InDegree(g, Elems(order), v) + Occurrences(rest, v))
    && (forall v :: v in inDegree ==> (inDegree[v] == 0 <==> InSomeOf(v, order, queue)))
    && Topological(g, order)
  }

  /** Counting down one target: its count is positive, and it joins the queue when that reaches zero. */
  lemma CountDown(g: seq<Edge>, inDegree: map<string, nat>, queue: seq<string>, order: seq<string>, rest: seq<string>)
    requires KahnInv(g, inDegree, queue, order, rest) && rest != [] && rest[0] in inDegree
    ensures inDegree[rest[0]] > 0
    ensures var d := inDegree[rest[0]] - 1;
      KahnInv(g, inDegree[rest[0] := d], if d == 0 then queue + [rest[0]] else queue, order, rest[1..])
  {
    var t := rest[0];
    forall v ensures Occurrences(rest, v) == (if t == v then 1 else 0) + Occurrences(rest[1..], v) {
      OccurrencesFromFront(rest, v);
    }
    assert inDegree[t] > 0;
    var d := inDegree[t] - 1;
    var inDegree', queue' := inDegree[t := d], if d == 0 then queue + [t] else queue;
    assert !InSomeOf(t, order, queue);
    assert Distinct(order + queue') by {
      assert order + (queue + [t]) == (order + queue) + [t];
    }
    forall v ensures InSomeOf(v, order, queue') <==> InSomeOf(v, order, queue) || (d == 0 && v == t) {}
  }

  lemma Remove(g: seq<Edge>, inDegree: map<string, nat>, queue: seq<string>, order: seq<string>)
    requires KahnInv(g, inDegree, queue, order, []) && queue != []
    ensures var u := queue[|queue| - 1];
      && u in inDegree && u !in order
      && KahnInv(g, inDegree, queue[..|queue| - 1], order + [u], Targets(g, u))
      && forall t :: t in Targets(g, u) ==> t in inDegree
  {
    var n := |queue| - 1;
    var u, queue' := queue[n], queue[..n];
    assert queue == queue' + [u];
    TakeFromQueue(order, queue', u);
    assert InSomeOf(u, order, queue);
    RemoveDegrees(g, order, u);
    InDegreeZero(g, Elems(order), u);
    TopologicalSnoc(g, order, u);
    TargetsAreNodes(g, u);
  }

  lemma TakeFromQueue(order: seq<string>, queue: seq<string>, u: string)
    requires Distinct(order + (queue + [u]))
    ensures u !in order && Distinct((order + [u]) + queue)
    ensures forall v :: InSomeOf(v, order, queue + [u]) <==> InSomeOf(v, order + [u], queue)
  {
    var all, n := order + (queue + [u]), |order| + |queue|;
    assert forall i :: 0 <= i < |order| ==> all[i] == order[i] && all[n] == u;
    RemoveDistinct(order, queue, u);
  }

  lemma RemoveDegrees(g: seq<Edge>, order: seq<string>, u: string)
    requires u !in order
    ensures forall v ::
      InDegree(g, Elems(order), v) == InDegree(g, Elems(order + [u]), v) + Occurrences(Targets(g, u), v)
  {
    assert Elems(order + [u]) == Elems(order) + {u};
    forall v
      ensures InDegree(g, Elems(order), v) == InDegree(g, Elems(order + [u]), v) + Occurrences(Targets(g, u), v)
    {
      InDegreeSplit(g, Elems(order), u, v);
    }
  }

  lemma TargetsAreNodes(g: seq<Edge>, u: string)
    ensures forall t :: t in Targets(g, u) ==> t in Nodes(g)
  {
    forall t | t in Targets(g, u) ensures t in Nodes(g) { TargetsAreEdges(g, u, t); }
  }

  lemma RemoveDistinct(order: seq<string>, queue: seq<string>, u: string)
    requires Distinct(order + (queue + [u]))
    ensures Distinct((order + [u]) + queue)
  {
    var a, b := order + (queue + [u]), (order + [u]) + queue;
    forall i, j | 0 <= i < j < |b| ensures b[i] != b[j] {
      var i' := if i < |order| then i else if i == |order| then |a| - 1 else i - 1;
      var j' := if j < |order| then j else if j == |order| then |a| - 1 else j - 1;
      assert b[i] == a[i'] && b[j] == a[j'] && i' != j';
    }
  }

  lemma TopologicalSnoc(g: seq<Edge>, order: seq<string>, u: string)
    requires Topological(g, order) && forall e :: e in g && e.to == u ==> e.from in Elems(order)
    ensures Topological(g, order + [u])
  {
    var order' := order + [u];
    forall e, j | e in g && 0 <= j < |order'| && order'[j] == e.to
      ensures exists i :: 0 <= i < j && order'[i] == e.from
    {
      if j < |order| {
        var i :| 0 <= i < j && order[i] == e.from;
        assert order'[i] == e.from;
      } else {
        var i :| 0 <= i < |order| && order[i] == e.from;
        assert order'[i] == e.from;
      }
    }
  }

  /** With the queue empty, what is left is exactly what is behind a cycle. */
  lemma LeftIsBehindCycle(g: seq<Edge>, inDegree: map<string, nat>, order: seq<string>)
    requires KahnInv(g, inDegree, [], order, [])
    ensures forall v :: v in inDegree ==> (inDegree[v] > 0 <==> BehindCycle(g, v))
  {
    var left := set v | v in inDegree && inDegree[v] > 0;
    forall v | v in left ensures HasFeeder(g, left, v) {
      InDegreeZero(g, Elems(order), v);
      var e :| e in g && e.to == v && e.from !in Elems(order);
      assert e == Edge(e.from, v) && e.from in Nodes(g) && !InSomeOf(e.from, order, []);
      assert e.from in left;
    }
    forall v | v in inDegree ensures inDegree[v] > 0 <==> BehindCycle(g, v) {
      if inDegree[v] > 0 {
        SelfFedIsBehindCycle(g, left, v);
      } else {
        assert InSomeOf(v, order, []);
        RemovedIsNotBehindCycle(g, order, v);
      }
    }
  }

  lemma CycleNodes(g: seq<Edge>, c: seq<string>, i: nat)
    requires IsCycle(g, c) && i < |c|
    ensures c[i] in Nodes(g) && BehindCycle(g, c[i])
  {
    if i == 0 {
      assert Joined(g, c, 0);
      assert IsPath(g, c) && IsCycle(g, c);
    } else {
      assert Joined(g, c, i - 1);
      WalkSlice(g, c, 0, i + 1);
      assert IsPath(g, c[0..i + 1]) && IsCycle(g, c);
    }
  }

  lemma {:induction false} EdgesSnoc(components: seq<Component>, c: Component)
    ensures Edges(components + [c]) == Edges(components) + Edges([c])
  {
    if components == [] {
      assert components + [c] == [c];
    } else {
      EdgesSnoc(components[1..], c);
      assert (components + [c])[1..] == components[1..] + [c];
    }
  }

  ghost predicate AdjacencyOf(edges: map<string, seq<string>>, g: seq<Edge>) {
    && edges.Keys == (set e | e in g :: e.from)
    && forall u :: u in edges ==> edges[u] == Targets(g, u)
  }

  lemma EdgesStep(components: seq<Component>, i: nat)
    requires i < |components|
    ensures Edges(components[..i + 1]) == Edges(components[..i]) +
      var c := components[i];
      if c.kind == Processor && c.inputTopic.Some? && c.outputTopic.Some?
      then [Edge(c.inputTopic.value, c.outputTopic.value)] else []
  {
    var c := components[i];
    assert components[..i + 1] == components[..i] + [c] && [c][1..] == [];
    EdgesSnoc(components[..i], c);
  }

  /** A processor reads topic `u` and writes topic `v`. */
  ghost predicate Feeds(components: seq<Component>, u: string, v: string) {
    exists c :: c in components && c.kind == Processor && c.inputTopic == Some(u) && c.outputTopic == Some(v)
  }

  lemma {:induction false} EdgesMeaning(components: seq<Component>, u: string, v: string)
    ensures Edge(u, v) in Edges(components) <==> Feeds(components, u, v)
  {
    if components != [] {
      EdgesMeaning(components[1..], u, v);
      assert components == [components[0]] + components[1..];
    }
  }

  /** Topics each of which feeds the next. */
  ghost predicate Flow(components: seq<Component>, p: seq<string>) {
    |p| >= 2 && forall i :: 0 <= i < |p| - 1 ==> Feeds(components, p[i], p[i + 1])
  }

  /** What a topic writes comes back to it. */
  ghost predicate Loop(components: seq<Component>, p: seq<string>) { Flow(components, p) && p[0] == p[|p| - 1] }

  /** The topic gets what comes out of a loop. */
  ghost predicate Fed(components: seq<Component>, v: string) {
    exists p, c :: Flow(components, p) && Loop(components, c) && p[0] == c[0] && p[|p| - 1] == v
  }

  lemma PathsAreFlows(components: seq<Component>, p: seq<string>)
    ensures IsPath(Edges(components), p) <==> Flow(components, p)
  {
    forall i | 0 <= i < |p| - 1 ensures Joined(Edges(components), p, i) <==> Feeds(components, p[i], p[i + 1]) {
      EdgesMeaning(components, p[i], p[i + 1]);
    }
  }

  ghost predicate NoLoop(components: seq<Component>) { forall p :: !Loop(components, p) }

  /** So the graph's cycles are the loops of the pipeline, */
  lemma CyclesAreLoops(components: seq<Component>)
    ensures Acyclic(Edges(components)) <==> NoLoop(components)
  {
    forall p ensures IsCycle(Edges(components), p) <==> Loop(components, p) { PathsAreFlows(components, p); }
  }

  /** and what is behind them is what they feed. */
  lemma BehindIsFed(components: seq<Component>, v: string)
    ensures BehindCycle(Edges(components), v) <==> Fed(components, v)
  {
    var g := Edges(components);
    if BehindCycle(g, v) {
      var p, c :| IsPath(g, p) && IsCycle(g, c) && p[0] == c[0] && p[|p| - 1] == v;
      PathsAreFlows(components, p);
      PathsAreFlows(components, c);
      assert Flow(components, p) && Loop(components, c);
    }
    if Fed(components, v) {
      var p, c :| Flow(components, p) && Loop(components, c) && p[0] == c[0] && p[|p| - 1] == v;
      PathsAreFlows(components, p);
      PathsAreFlows(components, c);
      assert IsPath(g, p) && IsCycle(g, c);
    }
  }

  method BuildGraph(components: seq<Component>) returns (edges: map<string, seq<string>>, allNodes: set<string>)
    ensures AdjacencyOf(edges, Edges(components)) && allNodes == Nodes(Edges(components))
  {
    edges, allNodes := map[], {};
    ghost var g: seq<Edge> := [];
    for i := 0 to |components|
      invariant g == Edges(components[..i])
      invariant AdjacencyOf(edges, g) && allNodes == Nodes(g)
    {
      var c := components[i];
      EdgesStep(components, i);
      if c.kind == Processor && c.inputTopic.Some? && c.outputTopic.Some? {
        var input, output := c.inputTopic.value, c.outputTopic.value;
        AdjacencySnoc(edges, g, Edge(input, output));
        NodesSnoc(g, Edge(input, output));
        edges := edges[input := (if input in edges then edges[input] else []) + [output]];
        allNodes := allNodes + {input} + {output};
        g := g + [Edge(input, output)];
      }
    }
    assert components[..|components|] == components;
  }

  lemma NodesSnoc(g: seq<Edge>, e: Edge)
    ensures Nodes(g + [e]) == Nodes(g) + {e.from} + {e.to}
    ensures (set x | x in g + [e] :: x.from) == (set x | x in g :: x.from) + {e.from}
  {
    assert e in g + [e];
    forall x | x in g ensures x in g + [e] {}
  }

  lemma AdjacencySnoc(edges: map<string, seq<string>>, g: seq<Edge>, e: Edge)
    requires AdjacencyOf(edges, g)
    ensures AdjacencyOf(edges[e.from := (if e.from in edges then edges[e.from] else []) + [e.to]], g + [e])
  {
    NodesSnoc(g, e);
    assert (g + [e])[..|g|] == g;
    if e.from !in edges { NoTargets(g, e.from); }
  }

  lemma {:induction false} NoTargets(g: seq<Edge>, u: string)
    requires u !in (set e | e in g :: e.from)
    ensures Targets(g, u) == []
  {
    if g != [] {
      assert g[|g| - 1] in g;
      NoTargets(g[..|g| - 1], u);
    }
  }

  method CountTargets(inDegree: map<string, nat>, targets: seq<string>) returns (counted: map<string, nat>)
    requires forall t :: t in targets ==> t in inDegree
    ensures counted.Keys == inDegree.Keys
    ensures forall v :: v in inDegree ==> counted[v] == inDegree[v] + Occurrences(targets, v)
  {
    counted := inDegree;
    for j := 0 to |targets|
      invariant counted.Keys == inDegree.Keys
      invariant forall v :: v in inDegree ==> counted[v] == inDegree[v] + Occurrences(targets[..j], v)
    {
      assert targets[..j + 1][..j] == targets[..j];
      counted := counted[targets[j] := counted[targets[j]] + 1];
    }
    assert targets[..|targets|] == targets;
  }

  /** In-degrees, counted over the map's entries in whatever order it gives them. */
  method CountInDegrees(edges: map<string, seq<string>>, allNodes: set<string>, ghost g: seq<Edge>)
    returns (inDegree: map<string, nat>)
    requires AdjacencyOf(edges, g) && allNodes == Nodes(g)
    ensures inDegree.Keys == allNodes
    ensures forall v :: v in inDegree ==> inDegree[v] == InDegree(g, {}, v)
  {
    inDegree := map v | v in allNodes :: 0;
    var todo := edges.Keys;
    forall v ensures InDegree(g, todo, v) == 0 { InDegreeZero(g, todo, v); }
    while todo != {}
      invariant todo <= edges.Keys && inDegree.Keys == allNodes
      invariant forall v :: v in inDegree ==> inDegree[v] == InDegree(g, todo, v)
      decreases todo
    {
      var u :| u in todo;
      ghost var before := todo;
      todo := todo - {u};
      assert todo + {u} == before;
      forall v ensures InDegree(g, todo, v) == InDegree(g, before, v) + Occurrences(edges[u], v) {
        InDegreeSplit(g, todo, u, v);
      }
      forall t | t in edges[u] ensures t in inDegree { TargetIsNode(g, u, t); }
      inDegree := CountTargets(inDegree, edges[u]);
    }
  }

  lemma TargetIsNode(g: seq<Edge>, u: string, t: string)
    requires t in Targets(g, u)
    ensures t in Nodes(g)
  {
    TargetsAreEdges(g, u, t);
  }

  method InitialQueue(inDegree: map<string, nat>) returns (queue: seq<string>)
    ensures Distinct(queue) && forall v :: v in queue <==> v in inDegree && inDegree[v] == 0
  {
    queue := [];
    var todo := inDegree.Keys;
    while todo != {}
      invariant todo <= inDegree.Keys && Distinct(queue)
      invariant forall v :: v in queue <==> v in inDegree.Keys - todo && inDegree[v] == 0
      decreases todo
    {
      var v :| v in todo;
      todo := todo - {v};
      if inDegree[v] == 0 {
        queue := queue + [v];
      }
    }
  }

  lemma OrderLength(order: seq<string>, nodes: set<string>)
    requires Distinct(order) && forall v :: v in order ==> v in nodes
    ensures |order| == |nodes| <==> forall v :: v in nodes ==> v in order
  {
    DistinctCard(order);
    var rest := nodes - Elems(order);
    assert nodes == Elems(order) + rest;
    assert |nodes| == |order| + |rest|;
    forall v | v in nodes ensures v in order <==> v !in rest {}
  }

  /** Counts down one target of a removed node, and queues it when no edge into it is left. */
  method ReleaseOne(ghost g: seq<Edge>, inDegree: map<string, nat>, queue: seq<string>, ghost order: seq<string>,
                    target: string, ghost rest: seq<string>)
    returns (inDegree': map<string, nat>, queue': seq<string>)
    requires KahnInv(g, inDegree, queue, order, rest) && rest != [] && target == rest[0] && target in Nodes(g)
    ensures KahnInv(g, inDegree', queue', order, rest[1..])
  {
    CountDown(g, inDegree, queue, order, rest);
    var deg := inDegree[target] - 1;
    inDegree' := inDegree[target := deg];
    queue' := if deg == 0 then queue + [target] else queue;
  }

  /** Counts down the targets of a removed node. */
  method Release(ghost g: seq<Edge>, inDegree: map<string, nat>, queue: seq<string>, ghost order: seq<string>,
                 targets: seq<string>)
    returns (inDegree': map<string, nat>, queue': seq<string>)
    requires KahnInv(g, inDegree, queue, order, targets) && forall t :: t in targets ==> t in Nodes(g)
    ensures KahnInv(g, inDegree', queue', order, [])
  {
    inDegree', queue' := inDegree, queue;
    assert targets[0..] == targets;
    for j := 0 to |targets|
      invariant KahnInv(g, inDegree', queue', order, targets[j..])
    {
      assert targets[j..][0] == targets[j] && targets[j..][1..] == targets[j + 1..];
      inDegree', queue' := ReleaseOne(g, inDegree', queue', order, targets[j], targets[j..]);
    }
    assert targets[|targets|..] == [];
  }

  /** Removes nodes without incoming edges until there is none, and says how many it removed and what in-degrees
      are left: all nodes go exactly when there is no cycle, and edges remain into exactly those behind one. */
  method RemoveAll(ghost g: seq<Edge>, edges: map<string, seq<string>>, inDegree: map<string, nat>, queue: seq<string>)
    returns (visited: nat, left: map<string, nat>)
    requires AdjacencyOf(edges, g) && KahnInv(g, inDegree, queue, [], [])
    ensures visited == |Nodes(g)| <==> Acyclic(g)
    ensures forall v :: v in left && left[v] > 0 <==> BehindCycle(g, v)
    ensures forall c, i :: IsCycle(g, c) && 0 <= i < |c| ==> c[i] in left && left[c[i]] > 0
  {
    ghost var order: seq<string> := [];
    visited, left := 0, inDegree;
    var queue' := queue;
    while queue' != []
      invariant KahnInv(g, left, queue', order, []) && visited == |order|
      decreases Nodes(g) - Elems(order)
    {
      Remove(g, left, queue', order);
      var node := queue'[|queue'| - 1];
      queue' := queue'[..|queue'| - 1];
      visited := visited + 1;
      ghost var before := order;
      order := order + [node];
      assert node in Elems(order) && node !in Elems(before) && Elems(before) <= Elems(order);
      if node in edges {
        left, queue' := Release(g, left, queue', order, edges[node]);
      } else {
        NoTargets(g, node);
      }
    }
    Verdict(g, left, order);
  }

  lemma AllRemoved(g: seq<Edge>, left: map<string, nat>, order: seq<string>)
    requires KahnInv(g, left, [], order, [])
    ensures |order| == |Nodes(g)| <==> forall v :: v in left ==> left[v] == 0
  {
    assert order + [] == order;
    forall v | v in left ensures v in order <==> left[v] == 0 { assert InSomeOf(v, order, []) <==> v in order; }
    forall v | v in order ensures v in Nodes(g) { assert InSomeOf(v, order, []); }
    OrderLength(order, Nodes(g));
  }

  /** What the removal count and the remaining in-degrees say about the graph. */
  lemma Verdict(g: seq<Edge>, left: map<string, nat>, order: seq<string>)
    requires KahnInv(g, left, [], order, [])
    ensures |order| == |Nodes(g)| <==> Acyclic(g)
    ensures forall v :: v in left && left[v] > 0 <==> BehindCycle(g, v)
    ensures forall c, i :: IsCycle(g, c) && 0 <= i < |c| ==> c[i] in left && left[c[i]] > 0
  {
    LeftIsBehindCycle(g, left, order);
    forall v | BehindCycle(g, v) ensures v in left { BehindIsNode(g, v); }
    forall c, i | IsCycle(g, c) && 0 <= i < |c| ensures c[i] in left && left[c[i]] > 0 { CycleNodes(g, c, i); }
    AllRemoved(g, left, order);
    if Acyclic(g) {
      forall v | v in left ensures left[v] == 0 { assert !BehindCycle(g, v); }
    } else {
      var c :| IsCycle(g, c);
      assert c[0] in left && left[c[0]] > 0;
    }
  }

  lemma NoNodesNoCycle(g: seq<Edge>)
    requires Nodes(g) == {}
    ensures Acyclic(g)
  {
    forall c ensures !IsCycle(g, c) {
      if IsCycle(g, c) { CycleNodes(g, c, 0); }
    }
  }

  /** The check accepts a pipeline if and only if it has no cycle, self-loops included; otherwise it reports
      exactly the topics that are on a cycle or downstream of one. */
  method ValidateNoCycles(components: seq<Component>) returns (r: Result<(), set<string>>)
    ensures r.Ok? <==> NoLoop(components)
    ensures r.Err? ==> forall v :: v in r.error <==> Fed(components, v)
    ensures r.Err? ==> forall c, i :: Loop(components, c) && 0 <= i < |c| ==> c[i] in r.error
  {
    r := CheckGraph(components);
    VerdictOnLoops(components, r);
  }

  lemma VerdictOnLoops(components: seq<Component>, r: Result<(), set<string>>)
    requires r.Ok? <==> Acyclic(Edges(components))
    requires r.Err? ==> forall v :: v in r.error <==> BehindCycle(Edges(components), v)
    ensures r.Ok? <==> NoLoop(components)
    ensures r.Err? ==> forall v :: v in r.error <==> Fed(components, v)
    ensures r.Err? ==> forall c, i :: Loop(components, c) && 0 <= i < |c| ==> c[i] in r.error
  {
    CyclesAreLoops(components);
    if r.Err? {
      forall v ensures v in r.error <==> Fed(components, v) { BehindIsFed(components, v); }
      forall c, i | Loop(components, c) && 0 <= i < |c| ensures c[i] in r.error {
        PathsAreFlows(components, c);
        CycleNodes(Edges(components), c, i);
      }
    }
  }

  method CheckGraph(components: seq<Component>) returns (r: Result<(), set<string>>)
    ensures r.Ok? <==> Acyclic(Edges(components))
    ensures r.Err? ==> forall v :: v in r.error <==> BehindCycle(Edges(components), v)
  {
    ghost var g := Edges(components);
    var edges, allNodes := BuildGraph(components);
    if allNodes == {} {
      NoNodesNoCycle(g);
      return Ok(());
    }
    var inDegree := CountInDegrees(edges, allNodes, g);
    var queue := InitialQueue(inDegree);
    InitiallyOk(g, inDegree, queue);
    var visited, left := RemoveAll(g, edges, inDegree, queue);
    if visited != |allNodes| {
      return Err(set v | v in left && left[v] > 0);
    }
    return Ok(());
  }

  lemma InitiallyOk(g: seq<Edge>, inDegree: map<string, nat>, queue: seq<string>)
    requires inDegree.Keys == Nodes(g) && forall v :: v in inDegree ==> inDegree[v] == InDegree(g, {}, v)
    requires Distinct(queue) && forall v :: v in queue <==> v in inDegree && inDegree[v] == 0
    ensures KahnInv(g, inDegree, queue, [], [])
  {
    assert [] + queue == queue;
    assert Elems<string>([]) == {};
  }

  lemma BehindIsNode(g: seq<Edge>, v: string)
    requires BehindCycle(g, v)
    ensures v in Nodes(g)
  {
    var p, c :| IsPath(g, p) && IsCycle(g, c) && p[0] == c[0] && p[|p| - 1] == v;
    assert Joined(g, p, |p| - 2);
  }
}
