/** Which node can be at which place of a chain, depending on the order in which the nodes are listed.

Nodes with equal scores keep the order in which they are listed. Agents list the nodes in different orders: each
puts itself first or last, and the others in whatever order its hash map has them.
*/
module Contention {
  import opened Lists
  import opened Numbers
  import opened Sorting
  import opened HashRing
  import opened RackAware

  /** The nodes with a score above `v`. */
  function Better(score: Score, partition: nat, nodes: seq<NodeDescriptor>, v: int): seq<NodeDescriptor> {
    Filter((n: NodeDescriptor) => ScoreOf(score, partition, n) > v, nodes)
  }

  predicate Tied(score: Score, partition: nat, x: NodeDescriptor, y: NodeDescriptor) {
    ScoreOf(score, partition, x) == ScoreOf(score, partition, y)
  }

  /** In a ranking the better nodes are the ones in front. */
  lemma {:induction false} BetterIsPrefix(score: Score, partition: nat, ranked: seq<NodeDescriptor>, v: int)
    requires Sorted(Ahead(score, partition), ranked)
    ensures Better(score, partition, ranked, v) <= ranked
    ensures forall i :: 0 <= i < |ranked| ==> (ScoreOf(score, partition, ranked[i]) > v <==>
      i < |Better(score, partition, ranked, v)|)
  {
    if ranked != [] {
      var p := (n: NodeDescriptor) => ScoreOf(score, partition, n) > v;
      if p(ranked[0]) {
        BetterIsPrefix(score, partition, ranked[1..], v);
        assert ranked == [ranked[0]] + ranked[1..];
      } else {
        forall n | n in ranked ensures !p(n) {
          var i :| 0 <= i < |ranked| && ranked[i] == n;
          assert i > 0 ==> Ahead(score, partition)(ranked[0], ranked[i]);
        }
        FilterNone(p, ranked);
      }
    }
  }

  lemma {:induction false} BetterShrinks(score: Score, partition: nat, nodes: seq<NodeDescriptor>, v: int, w: int)
    requires v <= w
    ensures |Better(score, partition, nodes, w)| <= |Better(score, partition, nodes, v)|
  {
    if nodes != [] { BetterShrinks(score, partition, nodes[1..], v, w); }
  }

  lemma BetterPermuted(score: Score, partition: nat, a: seq<NodeDescriptor>, b: seq<NodeDescriptor>, v: int)
    requires multiset(a) == multiset(b)
    ensures multiset(Better(score, partition, a, v)) == multiset(Better(score, partition, b, v))
    ensures |Better(score, partition, a, v)| == |Better(score, partition, b, v)|
  {
    FilterPermuted((n: NodeDescriptor) => ScoreOf(score, partition, n) > v, a, b);
    SameMembers(Better(score, partition, a, v), Better(score, partition, b, v));
  }

  lemma RankedFacts(score: Score, partition: nat, nodes: seq<NodeDescriptor>, v: int)
    ensures var ranked := Ranked(score, partition, nodes);
      && Sorted(Ahead(score, partition), ranked) && multiset(ranked) == multiset(nodes) && |ranked| == |nodes|
      && |Better(score, partition, ranked, v)| == |Better(score, partition, nodes, v)|
  {
    AheadIsTotal(score, partition);
    SortSorted(Ahead(score, partition), nodes);
    SortMultiset(Ahead(score, partition), nodes);
    BetterPermuted(score, partition, Ranked(score, partition, nodes), nodes, v);
  }

  /** How many nodes are strictly ahead of a place in the ranking says what score is there. */
  lemma ScoreAtPlace(score: Score, partition: nat, nodes: seq<NodeDescriptor>, i: nat, v: int)
    requires i < |nodes|
    ensures |Ranked(score, partition, nodes)| == |nodes|
    ensures ScoreOf(score, partition, Ranked(score, partition, nodes)[i]) > v <==>
      i < |Better(score, partition, nodes, v)|
  {
    RankedFacts(score, partition, nodes, v);
    BetterIsPrefix(score, partition, Ranked(score, partition, nodes), v);
  }

  /** A better node is in the same rack. */
  ghost predicate Outranked(score: Score, partition: nat, nodes: seq<NodeDescriptor>, x: NodeDescriptor) {
    Rack(x) in AllRacks(Above(score, partition, nodes, x))
  }

  lemma SameRacks(a: seq<NodeDescriptor>, b: seq<NodeDescriptor>)
    requires multiset(a) == multiset(b)
    ensures AllRacks(a) == AllRacks(b) && |a| == |b|
  {
    SameMembers(a, b);
  }

  lemma MembershipOfView(nodes: seq<NodeDescriptor>, view: seq<NodeDescriptor>)
    requires Membership(nodes) && multiset(view) == multiset(nodes)
    ensures Membership(view) && |view| == |nodes|
  {
    SameMembers(view, nodes);
    MultisetDistinct(nodes, view);
  }

  /** Ahead of a node in a ranking are the better ones, then some that are tied with it. */
  lemma SplitAhead(score: Score, partition: nat, a: seq<NodeDescriptor>, x: NodeDescriptor, b: seq<NodeDescriptor>)
    returns (better: seq<NodeDescriptor>, tied: seq<NodeDescriptor>)
    requires Sorted(Ahead(score, partition), a + [x] + b)
    ensures better == Above(score, partition, a + [x] + b, x) && a == better + tied
    ensures forall t :: t in tied ==> Tied(score, partition, x, t)
  {
    var all, s := a + [x] + b, ScoreOf(score, partition, x);
    BetterIsPrefix(score, partition, all, s);
    better := Better(score, partition, all, s);
    assert all[|a|] == x;
    assert |better| <= |a|;
    tied := a[|better|..];
    assert better == all[..|better|] == a[..|better|];
    forall t | t in tied ensures Tied(score, partition, x, t) {
      var i :| 0 <= i < |tied| && tied[i] == t;
      assert all[|better| + i] == t && Ahead(score, partition)(all[|better| + i], all[|a|]);
    }
  }

  lemma {:induction false} RacksGrow(a: seq<NodeDescriptor>, g: seq<NodeDescriptor>)
    ensures AllRacks(a) <= AllRacks(a + g) && |AllRacks(a)| <= |AllRacks(a + g)| <= |AllRacks(a)| + |g|
    ensures (forall t :: t in g ==> Rack(t) in AllRacks(a)) ==> AllRacks(a + g) == AllRacks(a)
    decreases |g|
  {
    if g == [] {
      assert a + g == a;
    } else {
      var front, last := g[..|g| - 1], g[|g| - 1];
      RacksGrow(a, front);
      assert a + g == (a + front) + [last];
      Snoc(a + front, last);
      assert forall t :: t in front ==> t in g;
      assert last in g;
    }
  }

  // ---------------------------------------------------------------- contenders

  /** The nodes with a higher score than `x`. */
  function Above(score: Score, partition: nat, nodes: seq<NodeDescriptor>, x: NodeDescriptor): seq<NodeDescriptor> {
    Better(score, partition, nodes, ScoreOf(score, partition, x))
  }

  /** The nodes with at least the score of `x`. */
  function UpTo(score: Score, partition: nat, nodes: seq<NodeDescriptor>, x: NodeDescriptor): seq<NodeDescriptor> {
    Better(score, partition, nodes, ScoreOf(score, partition, x) - 1)
  }

  /** How many nodes are not the first of their rack. */
  ghost function Surplus(nodes: seq<NodeDescriptor>): int { |nodes| - |AllRacks(nodes)| }

  /** Another node with the same score is in the same rack. */
  ghost predicate HasTwin(score: Score, partition: nat, nodes: seq<NodeDescriptor>, x: NodeDescriptor) {
    exists t :: t in nodes && t.id != x.id && Tied(score, partition, x, t) && Rack(t) == Rack(x)
  }

  /** `x` may be the best of its rack, and then be at place `q`. */
  ghost predicate ContendsAsFirst(score: Score, partition: nat, nodes: seq<NodeDescriptor>, x: NodeDescriptor, q: nat) {
    && !Outranked(score, partition, nodes, x)
    && |AllRacks(Above(score, partition, nodes, x))| <= q < |AllRacks(UpTo(score, partition, nodes, x))|
  }

  /** `x` may come after another node of its rack, and then be at place `q`. */
  ghost predicate ContendsAsOther(score: Score, partition: nat, nodes: seq<NodeDescriptor>, x: NodeDescriptor, q: nat) {
    && (Outranked(score, partition, nodes, x) || HasTwin(score, partition, nodes, x))
    && Surplus(Above(score, partition, nodes, x)) <= q - |AllRacks(nodes)| < Surplus(UpTo(score, partition, nodes, x))
  }

  ghost predicate Contends(score: Score, partition: nat, nodes: seq<NodeDescriptor>, x: NodeDescriptor, q: nat) {
    ContendsAsFirst(score, partition, nodes, x, q) || ContendsAsOther(score, partition, nodes, x, q)
  }

  lemma ContendsOfView(score: Score, partition: nat, nodes: seq<NodeDescriptor>, view: seq<NodeDescriptor>,
                       x: NodeDescriptor, q: nat)
    requires multiset(view) == multiset(nodes)
    ensures Contends(score, partition, view, x, q) <==> Contends(score, partition, nodes, x, q)
  {
    var v := ScoreOf(score, partition, x);
    SameMembers(view, nodes);
    BetterPermuted(score, partition, view, nodes, v);
    BetterPermuted(score, partition, view, nodes, v - 1);
    SameRacks(view, nodes);
    SameRacks(Above(score, partition, view, x), Above(score, partition, nodes, x));
    SameRacks(UpTo(score, partition, view, x), UpTo(score, partition, nodes, x));
  }

  lemma SurplusGrows(a: seq<NodeDescriptor>, g: seq<NodeDescriptor>)
    ensures AllRacks(a) <= AllRacks(a + g) && |AllRacks(a)| <= |AllRacks(a + g)| && Surplus(a) <= Surplus(a + g)
  {
    RacksGrow(a, g);
  }

  /** In a ranking, `x` and what is ahead of it are a prefix of the nodes with at least its score. */
  lemma SplitUpTo(score: Score, partition: nat, a: seq<NodeDescriptor>, x: NodeDescriptor, b: seq<NodeDescriptor>)
    returns (g: seq<NodeDescriptor>)
    requires Sorted(Ahead(score, partition), a + [x] + b)
    ensures UpTo(score, partition, a + [x] + b, x) == a + [x] + g
  {
    var all := a + [x] + b;
    BetterIsPrefix(score, partition, all, ScoreOf(score, partition, x) - 1);
    var upTo := UpTo(score, partition, all, x);
    assert all[|a|] == x && |a| < |upTo|;
    g := upTo[|a| + 1..];
    assert all[..|a| + 1] == a + [x] && upTo[..|a| + 1] == all[..|a| + 1];
  }

  /** Wherever a ranking seats a node, the node contends for that place. */
  lemma SeatIsContended(score: Score, partition: nat, a: seq<NodeDescriptor>, x: NodeDescriptor, b: seq<NodeDescriptor>)
    requires Sorted(Ahead(score, partition), a + [x] + b) && Membership(a + [x] + b)
    ensures Contends(score, partition, a + [x] + b, x, Seat(a, x, b))
  {
    var all := a + [x] + b;
    var above, tied := SplitAhead(score, partition, a, x, b);
    var g := SplitUpTo(score, partition, a, x, b);
    SurplusGrows(above, tied);
    SurplusGrows(a + [x], g);
    SeatCount(a, x, b);
    if Rack(x) in AllRacks(a) {
      OldRack(a, x);
      if Rack(x) !in AllRacks(above) { TwinAhead(score, partition, a, x, b, above, tied); }
      assert ContendsAsOther(score, partition, all, x, Seat(a, x, b));
    } else {
      NewRack(a, x);
      assert ContendsAsFirst(score, partition, all, x, Seat(a, x, b));
    }
  }

  lemma TwinAhead(score: Score, partition: nat, a: seq<NodeDescriptor>, x: NodeDescriptor, b: seq<NodeDescriptor>,
                  above: seq<NodeDescriptor>, tied: seq<NodeDescriptor>)
    requires Membership(a + [x] + b) && a == above + tied && Rack(x) in AllRacks(a) && Rack(x) !in AllRacks(above)
    requires forall t :: t in tied ==> Tied(score, partition, x, t)
    ensures HasTwin(score, partition, a + [x] + b, x)
  {
    var all := a + [x] + b;
    var t :| t in a && Rack(t) == Rack(x);
    assert t !in above;
    var i :| 0 <= i < |a| && a[i] == t;
    assert all[i] == t && all[|a|] == x && t in all && x in all;
  }

  // ---------------------------------------------------------------- every contender gets its place

  lemma ThreeParts<T>(s: seq<T>, m: nat, n: nat)
    requires m <= n <= |s|
    ensures s == s[..m] + s[m..n] + s[n..] && s[..m] + s[m..n] == s[..n]
  {
  }

  /** The nodes tied with `x`, between the better and the worse ones. */
  lemma GroupIn(score: Score, partition: nat, ranked: seq<NodeDescriptor>, x: NodeDescriptor) returns (m: nat, n: nat)
    requires Sorted(Ahead(score, partition), ranked) && x in ranked
    ensures m <= n <= |ranked|
    ensures ranked[..m] == Above(score, partition, ranked, x) && ranked[..n] == UpTo(score, partition, ranked, x)
    ensures x in ranked[m..n] && forall t :: t in ranked[m..n] ==> Tied(score, partition, x, t)
  {
    var v := ScoreOf(score, partition, x);
    BetterIsPrefix(score, partition, ranked, v);
    BetterIsPrefix(score, partition, ranked, v - 1);
    m, n := |Above(score, partition, ranked, x)|, |UpTo(score, partition, ranked, x)|;
    BetterShrinks(score, partition, ranked, v - 1, v);
    TiedBetween(score, partition, ranked, x, m, n);
  }

  lemma TiedBetween(score: Score, partition: nat, ranked: seq<NodeDescriptor>, x: NodeDescriptor, m: nat, n: nat)
    requires x in ranked && m <= n <= |ranked|
    requires forall i :: 0 <= i < |ranked| ==>
      (ScoreOf(score, partition, ranked[i]) > ScoreOf(score, partition, x) <==> i < m)
    requires forall i :: 0 <= i < |ranked| ==>
      (ScoreOf(score, partition, ranked[i]) > ScoreOf(score, partition, x) - 1 <==> i < n)
    ensures x in ranked[m..n] && forall t :: t in ranked[m..n] ==> Tied(score, partition, x, t)
  {
    var i :| 0 <= i < |ranked| && ranked[i] == x;
    assert ranked[m..n][i - m] == x;
    forall t | t in ranked[m..n] ensures Tied(score, partition, x, t) {
      var k :| 0 <= k < n - m && ranked[m..n][k] == t;
      assert ranked[m + k] == t;
    }
  }

  lemma Group(score: Score, partition: nat, nodes: seq<NodeDescriptor>, x: NodeDescriptor)
    returns (above: seq<NodeDescriptor>, g: seq<NodeDescriptor>, worse: seq<NodeDescriptor>)
    requires x in nodes
    ensures Ranked(score, partition, nodes) == above + g + worse
    ensures above == Above(score, partition, above + g + worse, x)
    ensures above + g == UpTo(score, partition, above + g + worse, x)
    ensures x in g && forall t :: t in g ==> Tied(score, partition, x, t)
  {
    var ranked := Ranked(score, partition, nodes);
    RankedFacts(score, partition, nodes, 0);
    SameMembers(ranked, nodes);
    var m, n := GroupIn(score, partition, ranked, x);
    ThreeParts(ranked, m, n);
    above, g, worse := ranked[..m], ranked[m..n], ranked[n..];
  }

  /** Tied nodes may be listed in any order: a ranking with its group rearranged is the ranking of a listing. */
  lemma Arrange(score: Score, partition: nat, nodes: seq<NodeDescriptor>, x: NodeDescriptor, above: seq<NodeDescriptor>,
                g: seq<NodeDescriptor>, worse: seq<NodeDescriptor>, g': seq<NodeDescriptor>)
    requires Ranked(score, partition, nodes) == above + g + worse && multiset(g') == multiset(g)
    requires forall t :: t in g ==> Tied(score, partition, x, t)
    ensures var view := above + g' + worse;
      multiset(view) == multiset(nodes) && Ranked(score, partition, view) == view
  {
    var ranked, view := above + g + worse, above + g' + worse;
    RankedFacts(score, partition, nodes, 0);
    SameMembers(g', g);
    assert multiset(view) == multiset(above) + multiset(g') + multiset(worse);
    assert multiset(ranked) == multiset(above) + multiset(g) + multiset(worse);
    forall i | 0 <= i < |view| ensures Tied(score, partition, view[i], ranked[i]) {
      if |above| <= i < |above| + |g| {
        assert view[i] == g'[i - |above|] && ranked[i] == g[i - |above|];
        assert view[i] in g && ranked[i] in g;
      }
    }
    var le := Ahead(score, partition);
    forall i, j | 0 <= i < j < |view| ensures le(view[i], view[j]) { assert le(ranked[i], ranked[j]); }
    AheadIsTotal(score, partition);
    SortedIsItself(le, view);
  }

  lemma OneMore(b: seq<NodeDescriptor>, t: seq<NodeDescriptor>)
    requires t != []
    ensures var less, more := b + t[..|t| - 1], b + t;
      && (|AllRacks(more)| == |AllRacks(less)| || |AllRacks(more)| == |AllRacks(less)| + 1)
      && (Surplus(more) == Surplus(less) || Surplus(more) == Surplus(less) + 1)
  {
    var less, last := b + t[..|t| - 1], t[|t| - 1];
    assert b + t == less + [last];
    if Rack(last) in AllRacks(less) { OldRack(less, last); } else { NewRack(less, last); }
  }

  /** Racks come one at a time, so every number in between is reached. */
  lemma {:induction false} RacksReach(b: seq<NodeDescriptor>, t: seq<NodeDescriptor>, k: int) returns (i: nat)
    requires |AllRacks(b)| <= k <= |AllRacks(b + t)|
    ensures i <= |t| && |AllRacks(b + t[..i])| == k
    decreases |t|
  {
    if k == |AllRacks(b + t)| {
      i := |t|;
      assert t[..i] == t;
    } else {
      assert t != [] by { assert b + [] == b; }
      OneMore(b, t);
      i := RacksReach(b, t[..|t| - 1], k);
      assert t[..|t| - 1][..i] == t[..i];
    }
  }

  lemma {:induction false} SurplusReaches(b: seq<NodeDescriptor>, t: seq<NodeDescriptor>, k: int) returns (i: nat)
    requires Surplus(b) <= k <= Surplus(b + t)
    ensures i <= |t| && Surplus(b + t[..i]) == k
    decreases |t|
  {
    if k == Surplus(b + t) {
      i := |t|;
      assert t[..i] == t;
    } else {
      assert t != [] by { assert b + [] == b; }
      OneMore(b, t);
      i := SurplusReaches(b, t[..|t| - 1], k);
      assert t[..|t| - 1][..i] == t[..i];
    }
  }

  lemma Reassemble<T>(s: seq<T>, i: nat, c: seq<T>, x: T, d: seq<T>)
    requires i <= |s|
    ensures multiset(s[..i] + [x] + (s[i..] + (c + d))) == multiset(s) + multiset(c + [x] + d)
  {
    assert s == s[..i] + s[i..];
  }

  /** The group arranged with `x` at the place it contends for as the first of its rack. */
  lemma ArrangeFirst(above: seq<NodeDescriptor>, g: seq<NodeDescriptor>, x: NodeDescriptor, q: nat)
    returns (front: seq<NodeDescriptor>, back: seq<NodeDescriptor>)
    requires x in g && Rack(x) !in AllRacks(above) && |AllRacks(above)| <= q < |AllRacks(above + g)|
    ensures multiset(front + [x] + back) == multiset(g)
    ensures Rack(x) !in AllRacks(above + front) && |AllRacks(above + front)| == q
  {
    var elsewhere, here := OtherRacks(g, x), SameRack(g, x);
    RackSplit(above, g, x);
    var i := RacksReach(above, elsewhere, q);
    FilterMembers((n: NodeDescriptor) => Rack(n) == Rack(x), g);
    var c, d := SplitAt(here, x);
    front, back := elsewhere[..i], elsewhere[i..] + (c + d);
    Reassemble(elsewhere, i, c, x, d);
    FilterMembers((n: NodeDescriptor) => Rack(n) != Rack(x), g);
    assert forall n :: n in above + front ==> n in above || n in elsewhere;
  }

  ghost function OtherRacks(g: seq<NodeDescriptor>, x: NodeDescriptor): seq<NodeDescriptor> {
    Filter((n: NodeDescriptor) => Rack(n) != Rack(x), g)
  }

  ghost function SameRack(g: seq<NodeDescriptor>, x: NodeDescriptor): seq<NodeDescriptor> {
    Filter((n: NodeDescriptor) => Rack(n) == Rack(x), g)
  }

  lemma {:induction false} FilterSplits<T>(p: T -> bool, q: T -> bool, s: seq<T>)
    requires forall x :: x in s ==> (p(x) <==> !q(x))
    ensures multiset(Filter(p, s)) + multiset(Filter(q, s)) == multiset(s)
  {
    if s != [] {
      FilterSplits(p, q, s[1..]);
      assert s == [s[0]] + s[1..];
    }
  }

  lemma RackSplit(above: seq<NodeDescriptor>, g: seq<NodeDescriptor>, x: NodeDescriptor)
    requires x in g && Rack(x) !in AllRacks(above)
    ensures multiset(OtherRacks(g, x)) + multiset(SameRack(g, x)) == multiset(g)
    ensures |AllRacks(above + g)| == |AllRacks(above + OtherRacks(g, x))| + 1
  {
    var off, on := (n: NodeDescriptor) => Rack(n) != Rack(x), (n: NodeDescriptor) => Rack(n) == Rack(x);
    FilterSplits(off, on, g);
    FilterMembers(off, g);
    var some, all := AllRacks(above + OtherRacks(g, x)), AllRacks(above + g);
    forall r ensures r in all <==> r in some + {Rack(x)} {
      if r in all {
        var n :| n in above + g && Rack(n) == r;
        assert r != Rack(x) ==> n in above + OtherRacks(g, x);
      }
      if r in some {
        var n :| n in above + OtherRacks(g, x) && Rack(n) == r;
        assert n in above + g;
      }
      assert x in above + g;
    }
    assert all == some + {Rack(x)};
  }

  /** The group arranged with `x` at the place it contends for after another node of its rack, which is ahead of the
      group or is its twin. */
  lemma ArrangeOther(above: seq<NodeDescriptor>, g: seq<NodeDescriptor>, x: NodeDescriptor, k: int,
                     head: seq<NodeDescriptor>, rest: seq<NodeDescriptor>)
    returns (front: seq<NodeDescriptor>, back: seq<NodeDescriptor>)
    requires multiset(head + [x] + rest) == multiset(g) && Surplus(above) <= k < Surplus(above + g)
    requires Rack(x) in AllRacks(above + head) && Surplus(above + head) == Surplus(above)
    ensures multiset(front + [x] + back) == multiset(g)
    ensures Rack(x) in AllRacks(above + front) && Surplus(above + front) == k
  {
    var start := above + head;
    assert Surplus(start + rest) + 1 == Surplus(above + g) by {
      SurplusGrows(start, rest);
      OldRack(start + rest, x);
      SameRacks((start + rest) + [x], above + g);
    }
    var i := SurplusReaches(start, rest, k);
    front, back := head + rest[..i], rest[i..];
    assert rest == rest[..i] + rest[i..];
    assert above + front == start + rest[..i];
    SurplusGrows(start, rest[..i]);
  }

  // ---------------------------------------------------------------- exactly the contenders

  /** The rack-aware chain has `id` at place `q`. */
  predicate Gives(score: Score, partition: nat, rf: nat, nodes: seq<NodeDescriptor>, q: nat, id: string) {
    var chain := AssignReplicasRackAware(score, partition, rf, nodes);
    q < |chain| && chain[q] == id
  }

  /** A listing in which `x` has the place for which the group was arranged. */
  lemma Listing(score: Score, partition: nat, rf: nat, nodes: seq<NodeDescriptor>, x: NodeDescriptor,
                above: seq<NodeDescriptor>, g: seq<NodeDescriptor>, worse: seq<NodeDescriptor>,
                front: seq<NodeDescriptor>, back: seq<NodeDescriptor>) returns (view: seq<NodeDescriptor>)
    requires Membership(nodes) && Ranked(score, partition, nodes) == above + g + worse
    requires forall t :: t in g ==> Tied(score, partition, x, t)
    requires multiset(front + [x] + back) == multiset(g) && Seat(above + front, x, back + worse) < rf
    ensures multiset(view) == multiset(nodes)
    ensures Gives(score, partition, rf, view, Seat(above + front, x, back + worse), x.id)
  {
    view := above + (front + [x] + back) + worse;
    Arrange(score, partition, nodes, x, above, g, worse, front + [x] + back);
    assert view == (above + front) + [x] + (back + worse);
    MembershipOfView(nodes, view);
    SeatInChain(score, partition, rf, view, above + front, x, back + worse);
  }

  lemma TakeOne<T>(g: seq<T>, x: T) returns (rest: seq<T>)
    requires x in g
    ensures multiset([] + [x] + rest) == multiset(g)
  {
    rest := DropOne(g, x);
    assert [] + [x] + rest == [x] + rest;
  }

  /** Two different members taken out of a list. */
  lemma TakeTwo<T>(g: seq<T>, x: T, t: T) returns (rest: seq<T>)
    requires x in g && t in g && t != x
    ensures multiset([t] + [x] + rest) == multiset(g)
  {
    rest := DropTwo(g, t, x);
    assert multiset([t] + [x] + rest) == multiset{t, x} + multiset(rest);
  }

  lemma TwinAlone(above: seq<NodeDescriptor>, t: NodeDescriptor)
    requires Rack(t) !in AllRacks(above)
    ensures Rack(t) in AllRacks(above + [t]) && Surplus(above + [t]) == Surplus(above)
  {
    NewRack(above, t);
  }

  lemma OtherHead(above: seq<NodeDescriptor>, g: seq<NodeDescriptor>, x: NodeDescriptor)
    returns (head: seq<NodeDescriptor>, rest: seq<NodeDescriptor>)
    requires x in g
    requires Rack(x) in AllRacks(above) || exists t :: t in g && t != x && Rack(t) == Rack(x)
    ensures multiset(head + [x] + rest) == multiset(g)
    ensures Rack(x) in AllRacks(above + head) && Surplus(above + head) == Surplus(above)
  {
    if Rack(x) in AllRacks(above) {
      head := [];
      rest := TakeOne(g, x);
      assert above + head == above;
    } else {
      var t :| t in g && t != x && Rack(t) == Rack(x);
      head := [t];
      rest := TakeTwo(g, x, t);
      TwinAlone(above, t);
    }
  }

  /** Every contender is at its place in the chain of some listing. */
  lemma ContenderIsGiven(score: Score, partition: nat, rf: nat, nodes: seq<NodeDescriptor>, x: NodeDescriptor, q: nat)
    returns (view: seq<NodeDescriptor>)
    requires Membership(nodes) && x in nodes && q < rf && Contends(score, partition, nodes, x, q)
    ensures multiset(view) == multiset(nodes) && Gives(score, partition, rf, view, q, x.id)
  {
    var above, g, worse := Group(score, partition, nodes, x);
    var ranked := above + g + worse;
    RankedFacts(score, partition, nodes, 0);
    RankedMembership(score, partition, nodes);
    ContendsOfView(score, partition, nodes, ranked, x, q);
    var front, back;
    if ContendsAsFirst(score, partition, ranked, x, q) {
      front, back := ArrangeFirst(above, g, x, q);
    } else {
      if !Outranked(score, partition, ranked, x) { TwinInGroup(score, partition, ranked, above, g, worse, x); }
      var head, rest := OtherHead(above, g, x);
      front, back := ArrangeOther(above, g, x, q - |AllRacks(ranked)|, head, rest);
    }
    ArrangedSeat(above, g, worse, front, x, back);
    view := Listing(score, partition, rf, nodes, x, above, g, worse, front, back);
  }

  lemma TiedIsBetween(score: Score, partition: nat, nodes: seq<NodeDescriptor>, x: NodeDescriptor, t: NodeDescriptor)
    requires t in nodes && Tied(score, partition, x, t)
    ensures t in UpTo(score, partition, nodes, x) && t !in Above(score, partition, nodes, x)
  {
    var v := ScoreOf(score, partition, x);
    FilterMembers((n: NodeDescriptor) => ScoreOf(score, partition, n) > v, nodes);
    FilterMembers((n: NodeDescriptor) => ScoreOf(score, partition, n) > v - 1, nodes);
  }

  lemma TwinInGroup(score: Score, partition: nat, ranked: seq<NodeDescriptor>, above: seq<NodeDescriptor>,
                    g: seq<NodeDescriptor>, worse: seq<NodeDescriptor>, x: NodeDescriptor)
    requires ranked == above + g + worse && HasTwin(score, partition, ranked, x)
    requires above == Above(score, partition, ranked, x) && above + g == UpTo(score, partition, ranked, x)
    ensures exists t :: t in g && t != x && Rack(t) == Rack(x)
  {
    var t :| t in ranked && t.id != x.id && Tied(score, partition, x, t) && Rack(t) == Rack(x);
    TiedIsBetween(score, partition, ranked, x, t);
    assert t in above + g;
  }

  lemma ArrangedSeat(above: seq<NodeDescriptor>, g: seq<NodeDescriptor>, worse: seq<NodeDescriptor>,
                     front: seq<NodeDescriptor>, x: NodeDescriptor, back: seq<NodeDescriptor>)
    requires multiset(front + [x] + back) == multiset(g)
    ensures Seat(above + front, x, back + worse) ==
      if Rack(x) in AllRacks(above + front) then |AllRacks(above + g + worse)| + Surplus(above + front)
      else |AllRacks(above + front)|
  {
    SeatCount(above + front, x, back + worse);
    assert above + front + [x] + (back + worse) == above + (front + [x] + back) + worse;
    SameRacks(above + (front + [x] + back) + worse, above + g + worse);
  }

  /** A node is at a place of some listing's chain, if and only if it contends for that place. */
  lemma GivenIffContends(score: Score, partition: nat, rf: nat, nodes: seq<NodeDescriptor>, x: NodeDescriptor, q: nat)
    requires Membership(nodes) && x in nodes && q < rf
    ensures Contends(score, partition, nodes, x, q) <==>
      exists view :: multiset(view) == multiset(nodes) && Gives(score, partition, rf, view, q, x.id)
  {
    if Contends(score, partition, nodes, x, q) {
      var view := ContenderIsGiven(score, partition, rf, nodes, x, q);
    }
    forall view | multiset(view) == multiset(nodes) && Gives(score, partition, rf, view, q, x.id)
      ensures Contends(score, partition, nodes, x, q)
    {
      var n := GivenContends(score, partition, rf, nodes, view, q);
      assert n == x;
    }
  }

  lemma GivenContends(score: Score, partition: nat, rf: nat, nodes: seq<NodeDescriptor>, view: seq<NodeDescriptor>,
                      q: nat)
    returns (n: NodeDescriptor)
    requires Membership(nodes) && multiset(view) == multiset(nodes)
    requires q < |AssignReplicasRackAware(score, partition, rf, view)|
    ensures n in nodes && Gives(score, partition, rf, view, q, n.id) && Contends(score, partition, nodes, n, q)
  {
    MembershipOfView(nodes, view);
    var a, x, b := PlaceIsSeat(score, partition, rf, view, q);
    var ranked := a + [x] + b;
    RankedFacts(score, partition, view, 0);
    RankedMembership(score, partition, view);
    SeatIsContended(score, partition, a, x, b);
    ContendsOfView(score, partition, nodes, ranked, x, q);
    SameMembers(ranked, nodes);
    assert ranked[|a|] == x;
    n := x;
  }

  /** No two nodes contend for the place. */
  ghost predicate PlaceDecided(score: Score, partition: nat, nodes: seq<NodeDescriptor>, q: nat) {
    forall x, y :: (&& x in nodes && y in nodes
                    && Contends(score, partition, nodes, x, q) && Contends(score, partition, nodes, y, q))
      ==> x.id == y.id
  }

  /** What every listing's chain has at place `q`. */
  ghost predicate SamePlace(score: Score, partition: nat, rf: nat, v: seq<NodeDescriptor>, w: seq<NodeDescriptor>,
                            q: nat)
  {
    forall id :: Gives(score, partition, rf, v, q, id) <==> Gives(score, partition, rf, w, q, id)
  }

  /** All listings have the same node at a place of the chain, if and only if no two nodes contend for it. */
  lemma PlacesAgreeIff(score: Score, partition: nat, rf: nat, nodes: seq<NodeDescriptor>, q: nat)
    requires Membership(nodes) && q < rf
    ensures PlaceDecided(score, partition, nodes, q) <==>
      forall view :: multiset(view) == multiset(nodes) ==> SamePlace(score, partition, rf, view, nodes, q)
  {
    if PlaceDecided(score, partition, nodes, q) {
      forall view | multiset(view) == multiset(nodes) ensures SamePlace(score, partition, rf, view, nodes, q) {
        DecidedPlace(score, partition, rf, nodes, view, q);
      }
    } else {
      var x, y :| x in nodes && y in nodes && Contends(score, partition, nodes, x, q)
                  && Contends(score, partition, nodes, y, q) && x.id != y.id;
      var v := ContenderIsGiven(score, partition, rf, nodes, x, q);
      var w := ContenderIsGiven(score, partition, rf, nodes, y, q);
      assert !SamePlace(score, partition, rf, v, nodes, q) || !SamePlace(score, partition, rf, w, nodes, q);
    }
  }

  lemma DecidedPlace(score: Score, partition: nat, rf: nat, nodes: seq<NodeDescriptor>, view: seq<NodeDescriptor>,
                     q: nat)
    requires Membership(nodes) && multiset(view) == multiset(nodes) && PlaceDecided(score, partition, nodes, q)
    ensures SamePlace(score, partition, rf, view, nodes, q)
  {
    MembershipOfView(nodes, view);
    AssignReplicasRackAwareShape(score, partition, rf, nodes);
    AssignReplicasRackAwareShape(score, partition, rf, view);
    if q < |AssignReplicasRackAware(score, partition, rf, nodes)| {
      var x := GivenContends(score, partition, rf, nodes, nodes, q);
      var y := GivenContends(score, partition, rf, nodes, view, q);
      assert x.id == y.id;
    }
  }

  // ---------------------------------------------------------------- one rack

  lemma OneRackSeat(a: seq<NodeDescriptor>, n: NodeDescriptor, b: seq<NodeDescriptor>, r: string)
    requires forall m :: m in a + [n] + b ==> Rack(m) == r
    ensures Seat(a, n, b) == |a|
  {
    assert n in a + [n] + b && forall m :: m in a ==> m in a + [n] + b;
    SeatCount(a, n, b);
    OneRackSet(a, r);
    OneRackSet(a + [n] + b, r);
  }

  lemma OneRackPlace(score: Score, partition: nat, rf: nat, nodes: seq<NodeDescriptor>, r: string, q: nat)
    requires Membership(nodes) && (forall n :: n in nodes ==> Rack(n) == r) && q < rf && q < |nodes|
    ensures q < |Ranked(score, partition, nodes)|
    ensures Gives(score, partition, rf, nodes, q, Ranked(score, partition, nodes)[q].id)
  {
    var ranked := Ranked(score, partition, nodes);
    RankedMembership(score, partition, nodes);
    var a, n, b := ranked[..q], ranked[q], ranked[q + 1..];
    assert ranked == a + [n] + b;
    OneRackSeat(a, n, b, r);
    SeatInChain(score, partition, rf, nodes, a, n, b);
  }

  /** When all nodes are in one rack, or none has a label, the rack-aware chain is the plain chain. */
  lemma OneRackIsPlain(score: Score, partition: nat, rf: nat, nodes: seq<NodeDescriptor>, r: string)
    requires Membership(nodes) && forall n :: n in nodes ==> Rack(n) == r
    ensures AssignReplicasRackAware(score, partition, rf, nodes) == AssignReplicas(score, partition, rf, nodes)
  {
    var racked := AssignReplicasRackAware(score, partition, rf, nodes);
    var plain := AssignReplicas(score, partition, rf, nodes);
    AssignReplicasRackAwareShape(score, partition, rf, nodes);
    AssignReplicasShape(score, partition, rf, nodes);
    forall q | 0 <= q < |plain| ensures q < |racked| && racked[q] == plain[q] {
      OneRackPlace(score, partition, rf, nodes, r, q);
    }
  }

  /** Then the contenders for a place are the nodes whose score is the one at that place. */
  lemma OneRackContends(score: Score, partition: nat, nodes: seq<NodeDescriptor>, r: string, x: NodeDescriptor, q: nat)
    requires Membership(nodes) && x in nodes && forall n :: n in nodes ==> Rack(n) == r
    ensures Contends(score, partition, nodes, x, q) <==>
      |Above(score, partition, nodes, x)| <= q < |UpTo(score, partition, nodes, x)|
  {
    var above, upTo := Above(score, partition, nodes, x), UpTo(score, partition, nodes, x);
    var v := ScoreOf(score, partition, x);
    FilterMembers((n: NodeDescriptor) => ScoreOf(score, partition, n) > v, nodes);
    FilterMembers((n: NodeDescriptor) => ScoreOf(score, partition, n) > v - 1, nodes);
    OneRackSet(above, r);
    OneRackSet(upTo, r);
    OneRackSet(nodes, r);
    assert x in upTo;
    if above == [] && |upTo| >= 2 { OneRackTwin(score, partition, nodes, r, x); }
  }

  lemma OneRackTwin(score: Score, partition: nat, nodes: seq<NodeDescriptor>, r: string, x: NodeDescriptor)
    requires Membership(nodes) && x in nodes && forall n :: n in nodes ==> Rack(n) == r
    requires Above(score, partition, nodes, x) == [] && |UpTo(score, partition, nodes, x)| >= 2
    ensures HasTwin(score, partition, nodes, x)
  {
    var upTo, v := UpTo(score, partition, nodes, x), ScoreOf(score, partition, x);
    FilterMembers((n: NodeDescriptor) => ScoreOf(score, partition, n) > v, nodes);
    FilterMembers((n: NodeDescriptor) => ScoreOf(score, partition, n) > v - 1, nodes);
    FilterDistinct((n: NodeDescriptor) => ScoreOf(score, partition, n) > v - 1, nodes);
    var t := if upTo[0] == x then upTo[1] else upTo[0];
    assert t in upTo && t != x && t !in Above(score, partition, nodes, x);
  }

  lemma OneRackSet(nodes: seq<NodeDescriptor>, r: string)
    requires forall n :: n in nodes ==> Rack(n) == r
    ensures AllRacks(nodes) == if nodes == [] then {} else {r}
  {
    if nodes != [] { assert nodes[0] in nodes && Rack(nodes[0]) == r; }
  }
}
