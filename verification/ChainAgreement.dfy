/** When agents that list the same nodes in different orders still agree on a replica chain. */
module ChainAgreement {
  import opened Lists
  import opened Sorting
  import opened HashRing
  import opened RackAware
  import opened Contention

  // ---------------------------------------------------------------- the plain chain

  /** Every two tied nodes have at least `rf` nodes strictly ahead of them. */
  ghost predicate Decided(score: Score, partition: nat, rf: nat, nodes: seq<NodeDescriptor>) {
    forall x, y :: x in nodes && y in nodes && x.id != y.id && Tied(score, partition, x, y) ==>
      |Above(score, partition, nodes, x)| >= rf
  }

  /** Listings of the same nodes have the same scores in the same places. */
  lemma SameScoreAtPlace(score: Score, partition: nat, nodes: seq<NodeDescriptor>, view: seq<NodeDescriptor>, i: nat)
    requires multiset(view) == multiset(nodes) && i < |nodes|
    ensures |Ranked(score, partition, nodes)| == |Ranked(score, partition, view)| == |nodes|
    ensures Tied(score, partition, Ranked(score, partition, nodes)[i], Ranked(score, partition, view)[i])
  {
    SameMembers(view, nodes);
    RankedFacts(score, partition, nodes, 0);
    RankedFacts(score, partition, view, 0);
    var sx := ScoreOf(score, partition, Ranked(score, partition, nodes)[i]);
    var sy := ScoreOf(score, partition, Ranked(score, partition, view)[i]);
    AboveAtPlace(score, partition, nodes, view, i, sx - 1);
    AboveAtPlace(score, partition, nodes, view, i, sy - 1);
  }

  lemma AboveAtPlace(score: Score, partition: nat, nodes: seq<NodeDescriptor>, view: seq<NodeDescriptor>, i: nat,
                     v: int)
    requires multiset(view) == multiset(nodes) && i < |nodes|
    ensures |Ranked(score, partition, nodes)| == |Ranked(score, partition, view)| == |nodes|
    ensures ScoreOf(score, partition, Ranked(score, partition, nodes)[i]) > v <==>
      ScoreOf(score, partition, Ranked(score, partition, view)[i]) > v
  {
    SameMembers(view, nodes);
    ScoreAtPlace(score, partition, nodes, i, v);
    ScoreAtPlace(score, partition, view, i, v);
    BetterPermuted(score, partition, nodes, view, v);
  }

  lemma SameNodeAtPlace(score: Score, partition: nat, rf: nat, nodes: seq<NodeDescriptor>, view: seq<NodeDescriptor>,
                        i: nat)
    requires Decided(score, partition, rf, nodes) && multiset(view) == multiset(nodes) && i < rf && i < |nodes|
    ensures |Ranked(score, partition, nodes)| == |Ranked(score, partition, view)| == |nodes|
    ensures Ranked(score, partition, nodes)[i].id == Ranked(score, partition, view)[i].id
  {
    SameScoreAtPlace(score, partition, nodes, view, i);
    var x, y := Ranked(score, partition, nodes)[i], Ranked(score, partition, view)[i];
    assert x in nodes && y in nodes by {
      SortMembers(Ahead(score, partition), nodes);
      SortMembers(Ahead(score, partition), view);
      SameMembers(view, nodes);
    }
    ScoreAtPlace(score, partition, nodes, i, ScoreOf(score, partition, x));
  }

  /** A node listed first comes right after the nodes that are strictly better. */
  lemma ListedFirst(score: Score, partition: nat, x: NodeDescriptor, rest: seq<NodeDescriptor>)
    returns (a: seq<NodeDescriptor>, b: seq<NodeDescriptor>)
    ensures Ranked(score, partition, [x] + rest) == a + [x] + b
    ensures a == Better(score, partition, a + [x] + b, ScoreOf(score, partition, x))
  {
    var le, nodes := Ahead(score, partition), [x] + rest;
    assert nodes[1..] == rest;
    var k := FirstStaysAhead(le, x, Sort(le, rest));
    var ranked := Ranked(score, partition, nodes);
    a, b := ranked[..k], ranked[k + 1..];
    assert ranked == a + [x] + b;
    var s := ScoreOf(score, partition, x);
    RankedFacts(score, partition, nodes, s);
    BetterIsPrefix(score, partition, ranked, s);
    var better := Better(score, partition, ranked, s);
    assert k > 0 ==> !le(x, ranked[k - 1]);
    assert |better| == k;
    assert better == ranked[..k];
  }

  lemma TiedListings(nodes: seq<NodeDescriptor>, x: NodeDescriptor, y: NodeDescriptor)
    returns (rest: seq<NodeDescriptor>)
    requires x in nodes && y in nodes && x != y
    ensures multiset([x] + ([y] + rest)) == multiset(nodes) == multiset([y] + ([x] + rest))
  {
    rest := DropTwo(nodes, x, y);
  }

  /** In the listing that has a node first, its place is how many are strictly better. */
  lemma PlaceWhenFirst(score: Score, partition: nat, rf: nat, nodes: seq<NodeDescriptor>, x: NodeDescriptor,
                       rest: seq<NodeDescriptor>)
    requires multiset([x] + rest) == multiset(nodes)
    requires |Above(score, partition, nodes, x)| < rf
    ensures PlainGives(score, partition, rf, [x] + rest, |Above(score, partition, nodes, x)|, x.id)
  {
    var s := ScoreOf(score, partition, x);
    var a, b := ListedFirst(score, partition, x, rest);
    RankedFacts(score, partition, [x] + rest, s);
    BetterPermuted(score, partition, [x] + rest, nodes, s);
  }

  predicate SamePlainChains(score: Score, partition: nat, rf: nat, v: seq<NodeDescriptor>, w: seq<NodeDescriptor>) {
    AssignReplicas(score, partition, rf, v) == AssignReplicas(score, partition, rf, w)
  }

  /** The plain chain has `id` at place `q`. */
  predicate PlainGives(score: Score, partition: nat, rf: nat, nodes: seq<NodeDescriptor>, q: nat, id: string) {
    var chain := AssignReplicas(score, partition, rf, nodes);
    q < |chain| && chain[q] == id
  }

  /** All listings of the nodes give the same chain, if and only if every two tied nodes have at least `rf`
      nodes strictly ahead of them. */
  lemma PlainChainsAgreeIff(score: Score, partition: nat, rf: nat, nodes: seq<NodeDescriptor>)
    ensures Decided(score, partition, rf, nodes) <==>
      forall view :: multiset(view) == multiset(nodes) ==> SamePlainChains(score, partition, rf, view, nodes)
  {
    if Decided(score, partition, rf, nodes) {
      forall view | multiset(view) == multiset(nodes) ensures SamePlainChains(score, partition, rf, view, nodes) {
        PlainChainsAgree(score, partition, rf, nodes, view);
      }
    } else {
      var x, y, rest, k := PlainChainsDiffer(score, partition, rf, nodes);
      var v, w := [x] + ([y] + rest), [y] + ([x] + rest);
      assert !SamePlainChains(score, partition, rf, v, nodes) || !SamePlainChains(score, partition, rf, w, nodes);
    }
  }

  lemma PlainChainsAgree(score: Score, partition: nat, rf: nat, nodes: seq<NodeDescriptor>, view: seq<NodeDescriptor>)
    requires Decided(score, partition, rf, nodes) && multiset(view) == multiset(nodes)
    ensures SamePlainChains(score, partition, rf, view, nodes)
  {
    var a, b := AssignReplicas(score, partition, rf, nodes), AssignReplicas(score, partition, rf, view);
    RankedFacts(score, partition, nodes, 0);
    RankedFacts(score, partition, view, 0);
    SameMembers(view, nodes);
    forall i | 0 <= i < |a| ensures a[i] == b[i] { SameNodeAtPlace(score, partition, rf, nodes, view, i); }
  }

  /** Two tied nodes with fewer than `rf` ahead of them: each is at place `k` of the chain if it is listed first. */
  lemma PlainChainsDiffer(score: Score, partition: nat, rf: nat, nodes: seq<NodeDescriptor>)
    returns (x: NodeDescriptor, y: NodeDescriptor, rest: seq<NodeDescriptor>, k: nat)
    requires !Decided(score, partition, rf, nodes)
    ensures x in nodes && y in nodes && x.id != y.id && k < rf
    ensures multiset([x] + ([y] + rest)) == multiset(nodes) == multiset([y] + ([x] + rest))
    ensures PlainGives(score, partition, rf, [x] + ([y] + rest), k, x.id)
    ensures PlainGives(score, partition, rf, [y] + ([x] + rest), k, y.id)
  {
    x, y :| x in nodes && y in nodes && x.id != y.id && Tied(score, partition, x, y)
            && |Above(score, partition, nodes, x)| < rf;
    rest := TiedListings(nodes, x, y);
    k := |Above(score, partition, nodes, x)|;
    PlaceWhenFirst(score, partition, rf, nodes, x, [y] + rest);
    PlaceWhenFirst(score, partition, rf, nodes, y, [x] + rest);
  }

  // ---------------------------------------------------------------- the rack-aware chain

  /** The earliest seat a node can get: counted from the nodes strictly better than it alone. */
  ghost function Floor(score: Score, partition: nat, nodes: seq<NodeDescriptor>, x: NodeDescriptor): int {
    var ahead := Above(score, partition, nodes, x);
    if Rack(x) in AllRacks(ahead) then |AllRacks(nodes)| + Surplus(ahead) else |AllRacks(ahead)|
  }

  /** Tied, and both outranked in their racks or both not. A tie between one that is and one that is not
      decides nothing. */
  ghost predicate Rivals(score: Score, partition: nat, nodes: seq<NodeDescriptor>, x: NodeDescriptor, y: NodeDescriptor)
  {
    Tied(score, partition, x, y) && (Outranked(score, partition, nodes, x) <==> Outranked(score, partition, nodes, y))
  }

  /** Rivals have their earliest seat beyond the chain. */
  ghost predicate RackDecided(score: Score, partition: nat, rf: nat, nodes: seq<NodeDescriptor>) {
    forall x, y :: x in nodes && y in nodes && x.id != y.id && Rivals(score, partition, nodes, x, y) ==>
      Floor(score, partition, nodes, x) >= rf
  }

  lemma FloorOfView(score: Score, partition: nat, nodes: seq<NodeDescriptor>, view: seq<NodeDescriptor>,
                    x: NodeDescriptor)
    requires multiset(view) == multiset(nodes)
    ensures Floor(score, partition, view, x) == Floor(score, partition, nodes, x)
    ensures Outranked(score, partition, view, x) <==> Outranked(score, partition, nodes, x)
  {
    BetterPermuted(score, partition, view, nodes, ScoreOf(score, partition, x));
    SameRacks(Above(score, partition, view, x), Above(score, partition, nodes, x));
    SameRacks(view, nodes);
  }

  /** In the listing that has a node first, its seat is its floor. */
  lemma SeatWhenFirst(score: Score, partition: nat, rf: nat, nodes: seq<NodeDescriptor>, x: NodeDescriptor,
                      rest: seq<NodeDescriptor>)
    requires Membership(nodes) && multiset([x] + rest) == multiset(nodes) && Floor(score, partition, nodes, x) < rf
    ensures 0 <= Floor(score, partition, nodes, x)
    ensures Gives(score, partition, rf, [x] + rest, Floor(score, partition, nodes, x), x.id)
  {
    var view := [x] + rest;
    MembershipOfView(nodes, view);
    var a, b := ListedFirst(score, partition, x, rest);
    assert Seat(a, x, b) == Floor(score, partition, a + [x] + b, x) by { SeatCount(a, x, b); }
    assert Floor(score, partition, a + [x] + b, x) == Floor(score, partition, nodes, x) by {
      RankedFacts(score, partition, view, 0);
      FloorOfView(score, partition, nodes, a + [x] + b, x);
    }
    SeatInChain(score, partition, rf, view, a, x, b);
  }

  /** Rivals with their floor in the chain: each is at place `k` of it if it is listed first. */
  lemma RackChainsDiffer(score: Score, partition: nat, rf: nat, nodes: seq<NodeDescriptor>)
    returns (x: NodeDescriptor, y: NodeDescriptor, rest: seq<NodeDescriptor>, k: nat)
    requires Membership(nodes) && !RackDecided(score, partition, rf, nodes)
    ensures x in nodes && y in nodes && x.id != y.id && k < rf
    ensures multiset([x] + ([y] + rest)) == multiset(nodes) == multiset([y] + ([x] + rest))
    ensures Gives(score, partition, rf, [x] + ([y] + rest), k, x.id)
    ensures Gives(score, partition, rf, [y] + ([x] + rest), k, y.id)
  {
    x, y :| x in nodes && y in nodes && x.id != y.id && Rivals(score, partition, nodes, x, y)
            && Floor(score, partition, nodes, x) < rf;
    rest := TiedListings(nodes, x, y);
    assert Floor(score, partition, nodes, y) == Floor(score, partition, nodes, x);
    SeatWhenFirst(score, partition, rf, nodes, x, [y] + rest);
    SeatWhenFirst(score, partition, rf, nodes, y, [x] + rest);
    k := Floor(score, partition, nodes, x);
  }

  /** What a better node and its equals reach is at most what is above a worse one. */
  lemma GroupsApart(score: Score, partition: nat, ranked: seq<NodeDescriptor>, x: NodeDescriptor, y: NodeDescriptor)
    requires Sorted(Ahead(score, partition), ranked) && ScoreOf(score, partition, x) > ScoreOf(score, partition, y)
    ensures var upTo, above := UpTo(score, partition, ranked, x), Above(score, partition, ranked, y);
      |AllRacks(upTo)| <= |AllRacks(above)| && Surplus(upTo) <= Surplus(above)
  {
    BetterIsPrefix(score, partition, ranked, ScoreOf(score, partition, x) - 1);
    BetterIsPrefix(score, partition, ranked, ScoreOf(score, partition, y));
    var upTo, above := UpTo(score, partition, ranked, x), Above(score, partition, ranked, y);
    assert upTo != [] ==> ScoreOf(score, partition, ranked[|upTo| - 1]) > ScoreOf(score, partition, y);
    assert above == upTo + above[|upTo|..];
    SurplusGrows(upTo, above[|upTo|..]);
  }

  /** Two nodes that contend for a place in the same way are tied. */
  lemma ContendersAreTied(score: Score, partition: nat, nodes: seq<NodeDescriptor>, x: NodeDescriptor,
                          y: NodeDescriptor, q: nat)
    requires || (ContendsAsFirst(score, partition, nodes, x, q) && ContendsAsFirst(score, partition, nodes, y, q))
             || (ContendsAsOther(score, partition, nodes, x, q) && ContendsAsOther(score, partition, nodes, y, q))
    ensures Tied(score, partition, x, y)
  {
    var ranked := Ranked(score, partition, nodes);
    RankedFacts(score, partition, nodes, 0);
    forall v ensures AllRacks(Better(score, partition, ranked, v)) == AllRacks(Better(score, partition, nodes, v))
             ensures |Better(score, partition, ranked, v)| == |Better(score, partition, nodes, v)|
    {
      BetterPermuted(score, partition, ranked, nodes, v);
      SameRacks(Better(score, partition, ranked, v), Better(score, partition, nodes, v));
    }
    if ScoreOf(score, partition, x) > ScoreOf(score, partition, y) { GroupsApart(score, partition, ranked, x, y); }
    if ScoreOf(score, partition, y) > ScoreOf(score, partition, x) { GroupsApart(score, partition, ranked, y, x); }
  }

  lemma ContendersWithin(score: Score, partition: nat, nodes: seq<NodeDescriptor>, x: NodeDescriptor, q: nat)
    requires Contends(score, partition, nodes, x, q) && x in nodes
    ensures ContendsAsFirst(score, partition, nodes, x, q) ==> q < |AllRacks(nodes)|
    ensures ContendsAsOther(score, partition, nodes, x, q) ==> q >= |AllRacks(nodes)|
    ensures |AllRacks(Above(score, partition, nodes, x))| <= |AllRacks(nodes)|
  {
    var v := ScoreOf(score, partition, x);
    FilterMembers((n: NodeDescriptor) => ScoreOf(score, partition, n) > v, nodes);
    FilterMembers((n: NodeDescriptor) => ScoreOf(score, partition, n) > v - 1, nodes);
    SubsetCard(AllRacks(UpTo(score, partition, nodes, x)), AllRacks(nodes));
    SubsetCard(AllRacks(Above(score, partition, nodes, x)), AllRacks(nodes));
    Counts(Above(score, partition, nodes, x));
  }

  /** If no rivals have their earliest seat in the chain, every place of it is decided. */
  lemma DecidedChainPlace(score: Score, partition: nat, rf: nat, nodes: seq<NodeDescriptor>, q: nat)
    requires RackDecided(score, partition, rf, nodes) && q < rf
    ensures PlaceDecided(score, partition, nodes, q)
  {
    forall x, y | x in nodes && y in nodes && Contends(score, partition, nodes, x, q) &&
      Contends(score, partition, nodes, y, q)
      ensures x.id == y.id
    {
      ContendersWithin(score, partition, nodes, x, q);
      ContendersWithin(score, partition, nodes, y, q);
      ContendersAreTied(score, partition, nodes, x, y, q);
      if x.id != y.id { NoTwoContenders(score, partition, rf, nodes, x, y, q); }
    }
  }

  lemma NoTwoContenders(score: Score, partition: nat, rf: nat, nodes: seq<NodeDescriptor>, x: NodeDescriptor,
                        y: NodeDescriptor, q: nat)
    requires x in nodes && y in nodes && x.id != y.id && Tied(score, partition, x, y) && q < rf
    requires Contends(score, partition, nodes, x, q) && Contends(score, partition, nodes, y, q)
    ensures !RackDecided(score, partition, rf, nodes)
  {
    ContendersWithin(score, partition, nodes, x, q);
    ContendersWithin(score, partition, nodes, y, q);
    if Outranked(score, partition, nodes, x) == Outranked(score, partition, nodes, y) {
      assert Rivals(score, partition, nodes, x, y);
    } else {
      var z := if Outranked(score, partition, nodes, x) then y else x;
      var t :| t in nodes && t.id != z.id && Tied(score, partition, z, t) && Rack(t) == Rack(z);
      assert Rivals(score, partition, nodes, z, t);
    }
  }

  predicate SameRackChains(score: Score, partition: nat, rf: nat, v: seq<NodeDescriptor>, w: seq<NodeDescriptor>) {
    AssignReplicasRackAware(score, partition, rf, v) == AssignReplicasRackAware(score, partition, rf, w)
  }

  lemma RackChainsAgree(score: Score, partition: nat, rf: nat, nodes: seq<NodeDescriptor>, view: seq<NodeDescriptor>)
    requires Membership(nodes) && RackDecided(score, partition, rf, nodes) && multiset(view) == multiset(nodes)
    ensures SameRackChains(score, partition, rf, view, nodes)
  {
    var a := AssignReplicasRackAware(score, partition, rf, nodes);
    var b := AssignReplicasRackAware(score, partition, rf, view);
    MembershipOfView(nodes, view);
    AssignReplicasRackAwareShape(score, partition, rf, nodes);
    AssignReplicasRackAwareShape(score, partition, rf, view);
    forall q | 0 <= q < |a| ensures a[q] == b[q] {
      DecidedChainPlace(score, partition, rf, nodes, q);
      DecidedPlace(score, partition, rf, nodes, view, q);
      assert Gives(score, partition, rf, nodes, q, a[q]);
    }
  }

  /** All listings of the nodes give the same rack-aware chain, if and only if no two rivals have their
      earliest seat in it. */
  lemma RackChainsAgreeIff(score: Score, partition: nat, rf: nat, nodes: seq<NodeDescriptor>)
    requires Membership(nodes)
    ensures RackDecided(score, partition, rf, nodes) <==>
      forall view :: multiset(view) == multiset(nodes) ==> SameRackChains(score, partition, rf, view, nodes)
  {
    if RackDecided(score, partition, rf, nodes) {
      forall view | multiset(view) == multiset(nodes) ensures SameRackChains(score, partition, rf, view, nodes) {
        RackChainsAgree(score, partition, rf, nodes, view);
      }
    } else {
      var x, y, rest, k := RackChainsDiffer(score, partition, rf, nodes);
      var v, w := [x] + ([y] + rest), [y] + ([x] + rest);
      assert !SameRackChains(score, partition, rf, v, nodes) || !SameRackChains(score, partition, rf, w, nodes);
    }
  }

  /** For nodes in one rack the two conditions are the same. */
  lemma OneRackDecided(score: Score, partition: nat, rf: nat, nodes: seq<NodeDescriptor>, r: string)
    requires Membership(nodes) && forall n :: n in nodes ==> Rack(n) == r
    ensures Decided(score, partition, rf, nodes) <==> RackDecided(score, partition, rf, nodes)
  {
    PlainChainsAgreeIff(score, partition, rf, nodes);
    RackChainsAgreeIff(score, partition, rf, nodes);
    OneRackIsPlain(score, partition, rf, nodes, r);
    forall view | multiset(view) == multiset(nodes)
      ensures SamePlainChains(score, partition, rf, view, nodes) <==> SameRackChains(score, partition, rf, view, nodes)
    {
      SameMembers(view, nodes);
      MembershipOfView(nodes, view);
      OneRackIsPlain(score, partition, rf, view, r);
    }
  }

  // ---------------------------------------------------------------- listed last

  lemma Shifted<T>(s: seq<T>, k: nat, y: T)
    requires k < |s|
    ensures [s[0]] + (s[1..][..k] + [y] + s[1..][k..]) == s[..k + 1] + [y] + s[k + 1..]
  {
    assert [s[0]] + s[1..][..k] == s[..k + 1] && s[1..][k..] == s[k + 1..];
  }

  lemma {:induction false} InsertSplits<T>(le: (T, T) -> bool, y: T, s: seq<T>) returns (m: nat)
    ensures m <= |s| && Insert(le, y, s) == s[..m] + [y] + s[m..]
    ensures forall j :: 0 <= j < m ==> !le(y, s[j])
  {
    if s == [] || le(y, s[0]) {
      m := 0;
      assert s[..0] == [] && s[0..] == s && [] + [y] + s == [y] + s;
    } else {
      var k := InsertSplits(le, y, s[1..]);
      m := k + 1;
      Shifted(s, k, y);
      assert forall j :: 0 < j < m ==> s[j] == s[1..][j - 1];
    }
  }

  /** The element that came last stays behind everything it compares equal to. */
  lemma {:induction false} LastStaysBehind<T>(le: (T, T) -> bool, s: seq<T>, x: T) returns (k: nat)
    ensures k < |Sort(le, s + [x])| && Sort(le, s + [x])[k] == x
    ensures forall j :: k < j < |Sort(le, s + [x])| ==> !le(Sort(le, s + [x])[j], x)
  {
    if s == [] {
      k := 0;
      assert s + [x] == [x] && [x][1..] == [];
    } else {
      k := LastStaysBehind(le, s[1..], x);
      var sorted := Sort(le, s[1..] + [x]);
      assert (s + [x])[1..] == s[1..] + [x] && (s + [x])[0] == s[0];
      var m := InsertSplits(le, s[0], sorted);
      if m <= k { k := k + 1; }
    }
  }

  /** A node listed last comes after all nodes with at least its score. */
  lemma ListedLast(score: Score, partition: nat, rest: seq<NodeDescriptor>, x: NodeDescriptor) returns (k: nat)
    ensures k < |Ranked(score, partition, rest + [x])| && Ranked(score, partition, rest + [x])[k] == x
    ensures k + 1 == |UpTo(score, partition, rest + [x], x)|
  {
    var le, nodes, v := Ahead(score, partition), rest + [x], ScoreOf(score, partition, x);
    k := LastStaysBehind(le, rest, x);
    var ranked := Ranked(score, partition, nodes);
    RankedFacts(score, partition, nodes, v - 1);
    BetterIsPrefix(score, partition, ranked, v - 1);
    assert k + 1 < |ranked| ==> !le(ranked[k + 1], x);
  }
}
