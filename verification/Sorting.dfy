/** Stable sorting by a comparison. */
module Sorting {
  import opened Lists

  function Insert<T>(le: (T, T) -> bool, x: T, s: seq<T>): seq<T> {
    if s == [] then [x]
    else if le(x, s[0]) then [x] + s
    else [s[0]] + Insert(le, x, s[1..])
  }

  /** Elements that compare equal keep their order. */
  function Sort<T>(le: (T, T) -> bool, s: seq<T>): seq<T> {
    if s == [] then [] else Insert(le, s[0], Sort(le, s[1..]))
  }

  ghost predicate TotalPreorder<T(!new)>(le: (T, T) -> bool) {
    && (forall x, y :: le(x, y) || le(y, x))
    && (forall x, y, z :: le(x, y) && le(y, z) ==> le(x, z))
  }

  ghost predicate Sorted<T>(le: (T, T) -> bool, s: seq<T>) {
    forall i, j :: 0 <= i < j < |s| ==> le(s[i], s[j])
  }

  lemma {:induction false} InsertMultiset<T>(le: (T, T) -> bool, x: T, s: seq<T>)
    ensures multiset(Insert(le, x, s)) == multiset(s) + multiset{x}
  {
    if s != [] && !le(x, s[0]) {
      InsertMultiset(le, x, s[1..]);
      assert s == [s[0]] + s[1..];
    }
  }

  lemma {:induction false} SortPermutes<T>(le: (T, T) -> bool, s: seq<T>)
    ensures multiset(Sort(le, s)) == multiset(s)
  {
    if s != [] {
      SortPermutes(le, s[1..]);
      InsertMultiset(le, s[0], Sort(le, s[1..]));
      assert s == [s[0]] + s[1..];
    }
  }

  lemma SortMultiset<T>(le: (T, T) -> bool, s: seq<T>)
    ensures multiset(Sort(le, s)) == multiset(s)
    ensures |Sort(le, s)| == |s|
  {
    SortPermutes(le, s);
    SameMembers(Sort(le, s), s);
  }

  lemma SortMembers<T>(le: (T, T) -> bool, s: seq<T>)
    ensures forall x :: x in Sort(le, s) <==> x in s
  {
    SortPermutes(le, s);
    SameMembers(Sort(le, s), s);
  }

  lemma {:induction false} InsertSorted<T(!new)>(le: (T, T) -> bool, x: T, s: seq<T>)
    requires TotalPreorder(le) && Sorted(le, s)
    ensures Sorted(le, Insert(le, x, s))
  {
    if s != [] && !le(x, s[0]) {
      InsertSorted(le, x, s[1..]);
      var t := Insert(le, x, s[1..]);
      forall y | y in t ensures le(s[0], y) {
        InsertMultiset(le, x, s[1..]);
        assert y in multiset(t);
      }
    }
  }

  lemma {:induction false} SortSorted<T(!new)>(le: (T, T) -> bool, s: seq<T>)
    requires TotalPreorder(le)
    ensures Sorted(le, Sort(le, s))
  {
    if s != [] {
      SortSorted(le, s[1..]);
      InsertSorted(le, s[0], Sort(le, s[1..]));
    }
  }

  /** No two different elements of `s` compare equal. */
  ghost predicate NoTies<T>(le: (T, T) -> bool, s: seq<T>) {
    forall x, y :: x in s && y in s && le(x, y) && le(y, x) ==> x == y
  }

  lemma SortedHead<T(!new)>(le: (T, T) -> bool, a: seq<T>, b: seq<T>)
    requires TotalPreorder(le) && Sorted(le, a) && multiset(a) == multiset(b) && b != []
    ensures a != [] && le(a[0], b[0])
  {
    assert b[0] in multiset(a);
    var j :| 0 <= j < |a| && a[j] == b[0];
    assert le(a[0], a[0]);
  }

  lemma TailMultiset<T>(a: seq<T>)
    requires a != []
    ensures multiset(a) == multiset(a[1..]) + multiset{a[0]}
  {
    assert a == [a[0]] + a[1..];
  }

  lemma SameHead<T(!new)>(le: (T, T) -> bool, a: seq<T>, b: seq<T>)
    requires TotalPreorder(le) && Sorted(le, a) && Sorted(le, b) && NoTies(le, a) && multiset(a) == multiset(b)
    requires a != []
    ensures b != [] && a[0] == b[0]
  {
    SameMembers(a, b);
    SortedHead(le, a, b);
    SortedHead(le, b, a);
    assert b[0] in b;
  }

  lemma SameTail<T>(a: seq<T>, b: seq<T>)
    requires a != [] && b != [] && a[0] == b[0] && multiset(a) == multiset(b)
    ensures multiset(a[1..]) == multiset(b[1..])
  {
    TailMultiset(a);
    TailMultiset(b);
    Cancel(multiset(a[1..]), multiset(b[1..]), a[0]);
  }

  lemma TailKeeps<T>(le: (T, T) -> bool, a: seq<T>)
    requires a != []
    ensures Sorted(le, a) ==> Sorted(le, a[1..])
    ensures NoTies(le, a) ==> NoTies(le, a[1..])
  {
    forall y | y in a[1..] ensures y in a {}
  }

  lemma {:induction false} SortedUnique<T(!new)>(le: (T, T) -> bool, a: seq<T>, b: seq<T>)
    requires TotalPreorder(le) && Sorted(le, a) && Sorted(le, b) && NoTies(le, a) && multiset(a) == multiset(b)
    ensures a == b
  {
    SameMembers(a, b);
    if a != [] {
      SameHead(le, a, b);
      SameTail(a, b);
      TailKeeps(le, a);
      TailKeeps(le, b);
      SortedUnique(le, a[1..], b[1..]);
      assert a == [a[0]] + a[1..] && b == [b[0]] + b[1..];
    }
  }

  /** The element that came first stays ahead of everything it compares equal to. */
  lemma {:induction false} FirstStaysAhead<T>(le: (T, T) -> bool, x: T, s: seq<T>) returns (k: nat)
    ensures k < |Insert(le, x, s)| && Insert(le, x, s)[k] == x
    ensures forall j :: 0 <= j < k ==> !le(x, Insert(le, x, s)[j])
  {
    k := 0;
    if s != [] && !le(x, s[0]) {
      k := FirstStaysAhead(le, x, s[1..]);
      k := k + 1;
    }
  }

  lemma NoTiesOrderIndependent<T(!new)>(le: (T, T) -> bool, s: seq<T>, a: seq<T>)
    requires TotalPreorder(le) && NoTies(le, s) && multiset(a) == multiset(s)
    ensures Sort(le, a) == Sort(le, s)
  {
    SortSorted(le, a);
    SortSorted(le, s);
    SortMultiset(le, a);
    SortMultiset(le, s);
    SortMembers(le, s);
    SortedUnique(le, Sort(le, s), Sort(le, a));
  }

  lemma TieMakesOrderMatter<T>(le: (T, T) -> bool, x: T, y: T, rest: seq<T>)
    requires le(x, y) && le(y, x) && x != y
    ensures Sort(le, [x] + ([y] + rest)) != Sort(le, [y] + ([x] + rest))
  {
    var a, b := [x] + ([y] + rest), [y] + ([x] + rest);
    assert a[0] == x && a[1..] == [y] + rest && b[0] == y && b[1..] == [x] + rest;
    var i := FirstStaysAhead(le, x, Sort(le, [y] + rest));
    var j := FirstStaysAhead(le, y, Sort(le, [x] + rest));
  }

  /** Sorting gives the same list for every arrangement of the same elements, if and only if no two
      different elements compare equal. */
  lemma OrderIndependentIffNoTies<T(!new)>(le: (T, T) -> bool, s: seq<T>)
    requires TotalPreorder(le)
    ensures NoTies(le, s) <==> forall a :: multiset(a) == multiset(s) ==> Sort(le, a) == Sort(le, s)
  {
    if NoTies(le, s) {
      forall a | multiset(a) == multiset(s) ensures Sort(le, a) == Sort(le, s) {
        NoTiesOrderIndependent(le, s, a);
      }
    } else {
      var a, b := TiedArrangements(le, s);
    }
  }

  lemma TiedArrangements<T>(le: (T, T) -> bool, s: seq<T>) returns (a: seq<T>, b: seq<T>)
    requires !NoTies(le, s)
    ensures multiset(a) == multiset(s) == multiset(b) && Sort(le, a) != Sort(le, b)
  {
    var x, y :| x in s && y in s && le(x, y) && le(y, x) && x != y;
    var rest := DropTwo(s, x, y);
    a, b := [x] + ([y] + rest), [y] + ([x] + rest);
    TieMakesOrderMatter(le, x, y, rest);
  }

  lemma DropOne<T>(s: seq<T>, x: T) returns (rest: seq<T>)
    requires x in s
    ensures multiset(s) == multiset(rest) + multiset{x}
  {
    var i :| 0 <= i < |s| && s[i] == x;
    rest := s[..i] + s[i + 1..];
    assert s == s[..i] + [x] + s[i + 1..];
  }

  lemma DropTwo<T>(s: seq<T>, x: T, y: T) returns (rest: seq<T>)
    requires x in s && y in s && x != y
    ensures multiset(s) == multiset(rest) + multiset{x, y}
  {
    var r := DropOne(s, x);
    assert y in multiset(s) && y in multiset(r);
    rest := DropOne(r, y);
  }

  lemma {:induction false} InsertFilter<T(!new)>(le: (T, T) -> bool, p: T -> bool, x: T, s: seq<T>)
    requires TotalPreorder(le) && Sorted(le, s)
    ensures Filter(p, Insert(le, x, s)) == if p(x) then Insert(le, x, Filter(p, s)) else Filter(p, s)
  {
    if s == [] {
    } else if le(x, s[0]) {
      assert ([x] + s)[1..] == s;
      FilterMembers(p, s);
      var f := Filter(p, s);
      if f != [] { assert f[0] in s && le(x, f[0]); }
    } else {
      InsertFilter(le, p, x, s[1..]);
      var t := Insert(le, x, s[1..]);
      assert ([s[0]] + t)[1..] == t;
      assert p(s[0]) ==> ([s[0]] + Filter(p, s[1..]))[1..] == Filter(p, s[1..]);
    }
  }

  /** Sorting what is left after removing elements is removing them from the sorted list. */
  lemma {:induction false} SortFilter<T(!new)>(le: (T, T) -> bool, p: T -> bool, s: seq<T>)
    requires TotalPreorder(le)
    ensures Sort(le, Filter(p, s)) == Filter(p, Sort(le, s))
  {
    if s != [] {
      SortFilter(le, p, s[1..]);
      SortSorted(le, s[1..]);
      InsertFilter(le, p, s[0], Sort(le, s[1..]));
      assert p(s[0]) ==> ([s[0]] + Filter(p, s[1..]))[1..] == Filter(p, s[1..]);
    }
  }
  lemma {:induction false} SortedIsItself<T(!new)>(le: (T, T) -> bool, s: seq<T>)
    requires TotalPreorder(le) && Sorted(le, s)
    ensures Sort(le, s) == s
  {
    if s != [] {
      SortedIsItself(le, s[1..]);
      assert s == [s[0]] + s[1..];
    }
  }

  /** Sorting is stable: elements that compare equal to `x` come out in the order they went in. */
  lemma SortIsStable<T(!new)>(le: (T, T) -> bool, p: T -> bool, s: seq<T>)
    requires TotalPreorder(le) && forall x, y :: p(x) && p(y) ==> le(x, y)
    ensures Filter(p, Sort(le, s)) == Filter(p, s)
  {
    SortFilter(le, p, s);
    FilterMembers(p, s);
    var tied := Filter(p, s);
    forall i, j | 0 <= i < j < |tied| ensures le(tied[i], tied[j]) { assert tied[i] in tied && tied[j] in tied; }
    SortedIsItself(le, tied);
  }
}
