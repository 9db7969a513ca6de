/** The checker that compares what a run published with what it received. */
module InvariantChecker {
  import opened Lists
  import opened Sorting

  datatype Entry = Entry(eventId: string, seqNo: nat, publisherId: string, checksum: nat)

  datatype MissingEvent = MissingEvent(eventId: string, publisherId: string, seqNo: nat)
  datatype DuplicateEvent = DuplicateEvent(eventId: string, occurrences: nat)
  datatype OrderingViolation = OrderingViolation(publisherId: string, previousSeq: nat, currentSeq: nat,
                                                 eventId: string)
  datatype ChecksumMismatch = ChecksumMismatch(eventId: string, published: nat, received: nat)
  datatype Report = Report(totalPublished: nat, totalReceived: nat, missing: seq<MissingEvent>,
                           duplicates: seq<DuplicateEvent>, violations: seq<OrderingViolation>,
                           mismatches: seq<ChecksumMismatch>, pass: bool)

  // ---------------------------------------------------------------- order of strings

  predicate StringLe(a: string, b: string) {
    a == [] || (b != [] && (a[0] < b[0] || (a[0] == b[0] && StringLe(a[1..], b[1..]))))
  }

  lemma {:induction false} StringTotal(a: string, b: string)
    ensures StringLe(a, b) || StringLe(b, a)
    ensures StringLe(a, b) && StringLe(b, a) ==> a == b
  {
    if a != [] && b != [] {
      StringTotal(a[1..], b[1..]);
      assert a == [a[0]] + a[1..] && b == [b[0]] + b[1..];
    }
  }

  lemma {:induction false} StringTransitive(a: string, b: string, c: string)
    requires StringLe(a, b) && StringLe(b, c)
    ensures StringLe(a, c)
  {
    if a != [] && a[0] == b[0] && b[0] == c[0] { StringTransitive(a[1..], b[1..], c[1..]); }
  }

  /** A proper prefix, or smaller at the first character that differs. */
  ghost predicate LexLess(a: string, b: string) {
    a < b || exists i :: 0 <= i < |a| && i < |b| && a[..i] == b[..i] && a[i] < b[i]
  }

  /** The order is that of dictionaries. */
  lemma {:induction false} StringLeIs(a: string, b: string)
    ensures StringLe(a, b) <==> a == b || LexLess(a, b)
  {
    if a != [] && b != [] {
      var a', b' := a[1..], b[1..];
      assert a == [a[0]] + a' && b == [b[0]] + b';
      if a[0] == b[0] {
        StringLeIs(a', b');
        LexLessCons(a[0], a', b');
      } else {
        DifferentHeads(a, b);
      }
    }
  }

  lemma LexLessCons(c: char, a: string, b: string)
    ensures LexLess([c] + a, [c] + b) <==> LexLess(a, b)
  {
    if LexLess(a, b) { LexLessLonger(c, a, b); }
    if LexLess([c] + a, [c] + b) { LexLessShorter(c, a, b); }
  }

  lemma LexLessLonger(c: char, a: string, b: string)
    requires LexLess(a, b)
    ensures LexLess([c] + a, [c] + b)
  {
    var ca, cb := [c] + a, [c] + b;
    if a < b {
      assert cb[..|ca|] == ca;
    } else {
      var i :| 0 <= i < |a| && i < |b| && a[..i] == b[..i] && a[i] < b[i];
      assert ca[..i + 1] == [c] + a[..i] && cb[..i + 1] == [c] + b[..i] && ca[i + 1] < cb[i + 1];
    }
  }

  lemma LexLessShorter(c: char, a: string, b: string)
    requires LexLess([c] + a, [c] + b)
    ensures LexLess(a, b)
  {
    var ca, cb := [c] + a, [c] + b;
    if ca < cb {
      forall k | 0 <= k < |a| ensures b[k] == a[k] { assert cb[k + 1] == ca[k + 1]; }
      assert b[..|a|] == a;
    } else {
      var i :| 0 <= i < |ca| && i < |cb| && ca[..i] == cb[..i] && ca[i] < cb[i];
      assert ca[0] == c == cb[0] && i > 0;
      assert a[..i - 1] == ca[..i][1..] && b[..i - 1] == cb[..i][1..];
      assert a[i - 1] == ca[i] && b[i - 1] == cb[i];
    }
  }

  lemma DifferentHeads(a: string, b: string)
    requires a != [] && b != [] && a[0] != b[0]
    ensures LexLess(a, b) <==> a[0] < b[0]
  {
    if a[0] < b[0] { assert a[..0] == b[..0]; }
    if i :| 0 <= i < |a| && i < |b| && a[..i] == b[..i] && a[i] < b[i] {
      if i > 0 { assert a[..i][0] == b[..i][0]; }
    }
  }

  /** Comparison by an id. */
  function By<T>(id: T -> string): (T, T) -> bool { (a, b) => StringLe(id(a), id(b)) }

  lemma ByIsTotal<T(!new)>(id: T -> string)
    ensures TotalPreorder(By(id))
  {
    forall x, y ensures By(id)(x, y) || By(id)(y, x) { StringTotal(id(x), id(y)); }
    forall x, y, z | By(id)(x, y) && By(id)(y, z) ensures By(id)(x, z) { StringTransitive(id(x), id(y), id(z)); }
  }

  const MissingOrder: (MissingEvent, MissingEvent) -> bool := By((m: MissingEvent) => m.eventId)
  const DuplicateOrder: (DuplicateEvent, DuplicateEvent) -> bool := By((d: DuplicateEvent) => d.eventId)
  const MismatchOrder: (ChecksumMismatch, ChecksumMismatch) -> bool := By((c: ChecksumMismatch) => c.eventId)

  /** By publisher, and by sequence number within a publisher. */
  predicate ViolationLe(a: OrderingViolation, b: OrderingViolation) {
    StringLe(a.publisherId, b.publisherId) && (a.publisherId == b.publisherId ==> a.currentSeq <= b.currentSeq)
  }

  lemma ViolationOrderIsTotal()
    ensures TotalPreorder(ViolationLe)
  {
    forall x, y ensures ViolationLe(x, y) || ViolationLe(y, x) { StringTotal(x.publisherId, y.publisherId); }
    forall x, y, z | ViolationLe(x, y) && ViolationLe(y, z) ensures ViolationLe(x, z) {
      StringTransitive(x.publisherId, y.publisherId, z.publisherId);
      StringTotal(x.publisherId, y.publisherId);
    }
  }

  // ---------------------------------------------------------------- what the pass over the manifests builds

  function FirstById(published: seq<Entry>): map<string, Entry> {
    if published == [] then map[]
    else
      var first, last := FirstById(published[..|published| - 1]), published[|published| - 1];
      if last.eventId in first then first else first[last.eventId := last]
  }

  function Counts(received: seq<Entry>): map<string, nat> {
    if received == [] then map[]
    else
      var counts, id := Counts(received[..|received| - 1]), received[|received| - 1].eventId;
      counts[id := (if id in counts then counts[id] else 0) + 1]
  }

  function LastSeq(received: seq<Entry>): map<string, nat> {
    if received == [] then map[]
    else
      var last := received[|received| - 1];
      LastSeq(received[..|received| - 1])[last.publisherId := last.seqNo]
  }

  function Violations(received: seq<Entry>): seq<OrderingViolation> {
    if received == [] then []
    else
      var front, last := received[..|received| - 1], received[|received| - 1];
      var seqs := LastSeq(front);
      Violations(front) +
      if last.publisherId in seqs && last.seqNo < seqs[last.publisherId]
      then [OrderingViolation(last.publisherId, seqs[last.publisherId], last.seqNo, last.eventId)]
      else []
  }

  function Mismatches(first: map<string, Entry>, received: seq<Entry>): seq<ChecksumMismatch> {
    if received == [] then []
    else
      var front, last := received[..|received| - 1], received[|received| - 1];
      Mismatches(first, front) +
      if last.eventId in first && first[last.eventId].checksum != last.checksum
      then [ChecksumMismatch(last.eventId, first[last.eventId].checksum, last.checksum)]
      else []
  }

  // ---------------------------------------------------------------- what they mean

  ghost predicate IsFirst(entries: seq<Entry>, i: int) {
    0 <= i < |entries| && forall j :: 0 <= j < i ==> entries[j].eventId != entries[i].eventId
  }

  /** The entry kept for an id is the first one published with it. */
  lemma {:induction false} FirstByIdMeaning(published: seq<Entry>, id: string)
    ensures id in FirstById(published) <==> exists i :: IsFirst(published, i) && published[i].eventId == id
    ensures forall i :: IsFirst(published, i) && published[i].eventId == id ==>
      id in FirstById(published) && FirstById(published)[id] == published[i]
    ensures id in FirstById(published) <==> exists e :: e in published && e.eventId == id
  {
    if published != [] {
      var n := |published| - 1;
      var front, last := published[..n], published[n];
      FirstByIdMeaning(front, id);
      assert published == front + [last];
      assert forall i :: 0 <= i < n ==> (IsFirst(front, i) <==> IsFirst(published, i));
      assert id == last.eventId && id !in FirstById(front) ==> IsFirst(published, n);
      assert last in published;
    }
  }

  /** Some id is received more than once. */
  ghost predicate Twice(received: seq<Entry>, id: string) {
    exists i, j :: 0 <= i < j < |received| && received[i].eventId == id && received[j].eventId == id
  }

  lemma {:induction false} CountsMeaning(received: seq<Entry>, id: string)
    ensures id in Counts(received) <==> exists e :: e in received && e.eventId == id
    ensures id in Counts(received) ==> Counts(received)[id] == |Filter((e: Entry) => e.eventId == id, received)|
    ensures id in Counts(received) ==> Counts(received)[id] >= 1 && (Counts(received)[id] > 1 <==> Twice(received, id))
  {
    if received != [] {
      var n := |received| - 1;
      var front, last := received[..n], received[n];
      CountsMeaning(front, id);
      assert received == front + [last];
      FilterConcat((e: Entry) => e.eventId == id, front, [last]);
      if id !in Counts(front) { FilterNone((e: Entry) => e.eventId == id, front); }
      TwiceSnoc(front, last, id);
    }
  }

  lemma TwiceSnoc(front: seq<Entry>, last: Entry, id: string)
    ensures Twice(front + [last], id) <==>
      Twice(front, id) || (last.eventId == id && exists e :: e in front && e.eventId == id)
  {
    var all := front + [last];
    if Twice(front, id) {
      var i, j :| 0 <= i < j < |front| && front[i].eventId == id && front[j].eventId == id;
      assert all[i].eventId == id && all[j].eventId == id;
    }
    if e :| e in front && e.eventId == id && last.eventId == id {
      var i :| 0 <= i < |front| && front[i] == e;
      assert all[i].eventId == id && all[|front|].eventId == id;
    }
    if Twice(all, id) {
      var i, j :| 0 <= i < j < |all| && all[i].eventId == id && all[j].eventId == id;
      assert all[i] == front[i];
      assert j < |front| ==> all[j] == front[j];
    }
  }

  /** The entry at `j` is the last one of publisher `p`. */
  ghost predicate IsLast(received: seq<Entry>, p: string, j: int) {
    && 0 <= j < |received| && received[j].publisherId == p
    && forall k :: j < k < |received| ==> received[k].publisherId != p
  }

  lemma {:induction false} LastSeqMeaning(received: seq<Entry>, p: string)
    ensures p in LastSeq(received) <==> exists j :: IsLast(received, p, j)
    ensures forall j :: IsLast(received, p, j) ==> p in LastSeq(received) && LastSeq(received)[p] == received[j].seqNo
  {
    if received != [] {
      var n := |received| - 1;
      var front, last := received[..n], received[n];
      LastSeqMeaning(front, p);
      if last.publisherId == p {
        assert IsLast(received, p, n);
      } else {
        assert forall j :: IsLast(received, p, j) <==> IsLast(front, p, j);
      }
    }
  }

  /** The entry at `i` has a lower sequence number than the entry at `j`, the one before it of its publisher. */
  ghost predicate Violates(received: seq<Entry>, j: int, i: int) {
    && 0 <= j < i < |received|
    && IsLast(received[..i], received[i].publisherId, j)
    && received[i].seqNo < received[j].seqNo
  }

  ghost predicate ViolatesAs(received: seq<Entry>, j: int, i: int, v: OrderingViolation) {
    Violates(received, j, i) &&
    v == OrderingViolation(received[i].publisherId, received[j].seqNo, received[i].seqNo, received[i].eventId)
  }

  lemma {:induction false} ViolationsMeaning(received: seq<Entry>, v: OrderingViolation)
    ensures v in Violations(received) <==> exists j, i :: ViolatesAs(received, j, i, v)
  {
    if received != [] {
      var n := |received| - 1;
      var front := received[..n];
      ViolationsMeaning(front, v);
      EarlierViolations(received, v);
      LastViolation(received, v);
      var now := Violations(received)[|Violations(front)|..];
      assert Violations(received) == Violations(front) + now;
    }
  }

  lemma EarlierViolations(received: seq<Entry>, v: OrderingViolation)
    requires received != []
    ensures
      var n := |received| - 1;
      forall j, i :: i != n ==> (ViolatesAs(received[..n], j, i, v) <==> ViolatesAs(received, j, i, v))
  {
    var n := |received| - 1;
    var front := received[..n];
    forall j, i | 0 <= j < i < n ensures ViolatesAs(front, j, i, v) <==> ViolatesAs(received, j, i, v) {
      assert front[..i] == received[..i];
    }
  }

  lemma LastViolation(received: seq<Entry>, v: OrderingViolation)
    requires received != []
    ensures var n := |received| - 1;
      v in Violations(received)[|Violations(received[..n])|..] <==> exists j :: ViolatesAs(received, j, n, v)
  {
    var n := |received| - 1;
    var front, last := received[..n], received[n];
    LastSeqMeaning(front, last.publisherId);
    if last.publisherId in LastSeq(front) {
      var j :| IsLast(front, last.publisherId, j);
      assert Violates(received, j, n) <==> last.seqNo < LastSeq(front)[last.publisherId];
      assert ViolatesAs(received, j, n, v) <==> v in Violations(received)[|Violations(front)|..];
    }
  }

  /** The received sequence numbers of every publisher never go down. */
  ghost predicate InOrder(received: seq<Entry>) {
    forall i, j :: 0 <= i < j < |received| && received[i].publisherId == received[j].publisherId ==>
      received[i].seqNo <= received[j].seqNo
  }

  lemma {:induction false} NoViolationsIff(received: seq<Entry>)
    ensures Violations(received) == [] <==> InOrder(received)
  {
    if received != [] {
      NoViolationsIff(received[..|received| - 1]);
      LastInOrder(received);
    }
  }

  lemma LastInOrder(received: seq<Entry>)
    requires received != []
    ensures var front, last := received[..|received| - 1], received[|received| - 1];
      InOrder(received) <==>
        InOrder(front) && (last.publisherId in LastSeq(front) ==> LastSeq(front)[last.publisherId] <= last.seqNo)
  {
    var n := |received| - 1;
    var front, last := received[..n], received[n];
    LastSeqMeaning(front, last.publisherId);
    assert forall i :: 0 <= i < n ==> front[i] == received[i];
    if last.publisherId in LastSeq(front) {
      var j :| IsLast(front, last.publisherId, j);
      assert received[j] == front[j];
      forall i | 0 <= i < n && received[i].publisherId == last.publisherId && InOrder(front)
        ensures received[i].seqNo <= received[j].seqNo
      {
        assert i <= j;
      }
    } else {
      NotLast(front, last.publisherId);
    }
  }

  lemma {:induction false} NotLast(received: seq<Entry>, p: string)
    requires forall j :: !IsLast(received, p, j)
    ensures forall e :: e in received ==> e.publisherId != p
  {
    if received != [] {
      var n := |received| - 1;
      assert received[n].publisherId == p ==> IsLast(received, p, n);
      forall j ensures !IsLast(received[..n], p, j) {
        assert IsLast(received[..n], p, j) ==> IsLast(received, p, j);
      }
      NotLast(received[..n], p);
      assert received == received[..n] + [received[n]];
    }
  }

  /** A received entry whose checksum is not that of the first entry published with its id. */
  predicate Mismatched(first: map<string, Entry>, e: Entry, c: ChecksumMismatch) {
    && e.eventId in first && first[e.eventId].checksum != e.checksum
    && c == ChecksumMismatch(e.eventId, first[e.eventId].checksum, e.checksum)
  }

  lemma {:induction false} MismatchesMeaning(first: map<string, Entry>, received: seq<Entry>, c: ChecksumMismatch)
    ensures c in Mismatches(first, received) <==> exists e :: e in received && Mismatched(first, e, c)
  {
    if received != [] {
      var n := |received| - 1;
      MismatchesMeaning(first, received[..n], c);
      assert received == received[..n] + [received[n]];
      assert received[n] in received;
      assert Mismatched(first, received[n], c) <==>
        c in Mismatches(first, received)[|Mismatches(first, received[..n])|..];
    }
  }

  // ---------------------------------------------------------------- the report

  ghost predicate Received(received: seq<Entry>, id: string) {
    exists e :: e in received && e.eventId == id
  }

  ghost predicate IsMissing(published: seq<Entry>, received: seq<Entry>, m: MissingEvent) {
    !Received(received, m.eventId) &&
    exists i :: IsFirst(published, i) &&
      m == MissingEvent(published[i].eventId, published[i].publisherId, published[i].seqNo)
  }

  ghost predicate IsDuplicate(received: seq<Entry>, d: DuplicateEvent) {
    d.occurrences > 1 && d.occurrences == |Filter((e: Entry) => e.eventId == d.eventId, received)|
  }

  /** What the checker reports about two manifests. */
  ghost predicate IsReport(published: seq<Entry>, received: seq<Entry>, r: Report) {
    && r.totalPublished == |published| && r.totalReceived == |received|
    && Sorted(MissingOrder, r.missing) && Distinct(r.missing)
    && (forall m :: m in r.missing <==> IsMissing(published, received, m))
    && Sorted(DuplicateOrder, r.duplicates) && Distinct(r.duplicates)
    && (forall d :: d in r.duplicates <==> IsDuplicate(received, d))
    && r.violations == Sort(ViolationLe, Violations(received))
    && r.mismatches == Sort(MismatchOrder, Mismatches(FirstById(published), received))
    && (r.pass <==> r.missing == [] && r.duplicates == [] && r.mismatches == [])
  }

  method CollectMissing(published: seq<Entry>, received: seq<Entry>, first: map<string, Entry>,
                        receivedIds: set<string>)
    returns (missing: seq<MissingEvent>)
    requires first == FirstById(published) && receivedIds == Counts(received).Keys
    ensures Distinct(missing)
    ensures forall m :: m in missing <==> IsMissing(published, received, m)
  {
    missing := [];
    var todo := first.Keys;
    forall m | IsMissing(published, received, m) ensures m.eventId in todo { FirstByIdMeaning(published, m.eventId); }
    while todo != {}
      invariant todo <= first.Keys && Distinct(missing)
      invariant forall m :: m in missing <==> IsMissing(published, received, m) && m.eventId !in todo
      decreases todo
    {
      var id :| id in todo;
      todo := todo - {id};
      FirstByIdMeaning(published, id);
      CountsMeaning(received, id);
      if first[id].eventId !in receivedIds {
        missing := missing + [MissingEvent(first[id].eventId, first[id].publisherId, first[id].seqNo)];
      }
    }
  }

  method CollectDuplicates(received: seq<Entry>, counts: map<string, nat>) returns (duplicates: seq<DuplicateEvent>)
    requires counts == Counts(received)
    ensures Distinct(duplicates)
    ensures forall d :: d in duplicates <==> IsDuplicate(received, d)
  {
    duplicates := [];
    var todo := counts.Keys;
    forall d | IsDuplicate(received, d) ensures d.eventId in todo { DuplicateIsCounted(received, d); }
    while todo != {}
      invariant todo <= counts.Keys && Distinct(duplicates)
      invariant forall d :: d in duplicates <==> IsDuplicate(received, d) && d.eventId !in todo
      decreases todo
    {
      var id :| id in todo;
      todo := todo - {id};
      CountsMeaning(received, id);
      if counts[id] > 1 {
        duplicates := duplicates + [DuplicateEvent(id, counts[id])];
      }
    }
  }

  lemma DuplicateIsCounted(received: seq<Entry>, d: DuplicateEvent)
    requires IsDuplicate(received, d)
    ensures d.eventId in Counts(received)
  {
    CountsMeaning(received, d.eventId);
    FilterMembers((e: Entry) => e.eventId == d.eventId, received);
    assert Filter((e: Entry) => e.eventId == d.eventId, received)[0] in received;
  }

  method Check(published: seq<Entry>, received: seq<Entry>) returns (r: Report)
    ensures IsReport(published, received, r)
    ensures r.totalPublished == |published| && r.totalReceived == |received|
  {
    var first: map<string, Entry> := map[];
    for i := 0 to |published|
      invariant first == FirstById(published[..i])
    {
      assert published[..i + 1] == published[..i] + [published[i]];
      if published[i].eventId !in first {
        first := first[published[i].eventId := published[i]];
      }
    }
    assert published[..|published|] == published;
    var counts, mismatches, violations := ScanReceived(first, received);
    var missing := CollectMissing(published, received, first, counts.Keys);
    var duplicates := CollectDuplicates(received, counts);
    ListingSorted(MissingOrder, missing, (m: MissingEvent) => m.eventId);
    ListingSorted(DuplicateOrder, duplicates, (d: DuplicateEvent) => d.eventId);
    missing := Sort(MissingOrder, missing);
    duplicates := Sort(DuplicateOrder, duplicates);
    violations := Sort(ViolationLe, violations);
    mismatches := Sort(MismatchOrder, mismatches);
    var pass := missing == [] && duplicates == [] && mismatches == [];
    r := Report(|published|, |received|, missing, duplicates, violations, mismatches, pass);
  }

  /** The single pass over the received entries; the ids received are the keys of `counts`. */
  method ScanReceived(first: map<string, Entry>, received: seq<Entry>)
    returns (counts: map<string, nat>, mismatches: seq<ChecksumMismatch>, violations: seq<OrderingViolation>)
    ensures counts == Counts(received) && mismatches == Mismatches(first, received)
    ensures violations == Violations(received)
  {
    counts, mismatches, violations := map[], [], [];
    var lastSeq: map<string, nat> := map[];
    for i := 0 to |received|
      invariant counts == Counts(received[..i]) && lastSeq == LastSeq(received[..i])
      invariant mismatches == Mismatches(first, received[..i]) && violations == Violations(received[..i])
    {
      var e := received[i];
      assert received[..i + 1][..i] == received[..i];
      counts := counts[e.eventId := (if e.eventId in counts then counts[e.eventId] else 0) + 1];
      if e.publisherId in lastSeq && e.seqNo < lastSeq[e.publisherId] {
        violations := violations + [OrderingViolation(e.publisherId, lastSeq[e.publisherId], e.seqNo, e.eventId)];
      }
      lastSeq := lastSeq[e.publisherId := e.seqNo];
      if e.eventId in first && first[e.eventId].checksum != e.checksum {
        mismatches := mismatches + [ChecksumMismatch(e.eventId, first[e.eventId].checksum, e.checksum)];
      }
    }
    assert received[..|received|] == received;
  }

  lemma ListingSorted<T(!new)>(le: (T, T) -> bool, s: seq<T>, id: T -> string)
    requires le == By(id) && Distinct(s)
    ensures Sorted(le, Sort(le, s)) && Distinct(Sort(le, s)) && forall x :: x in Sort(le, s) <==> x in s
  {
    ByIsTotal(id);
    SortSorted(le, s);
    SortMultiset(le, s);
    SortMembers(le, s);
    MultisetDistinct(s, Sort(le, s));
  }

  // ---------------------------------------------------------------- what a report says

  lemma ListingUnique<T(!new)>(le: (T, T) -> bool, a: seq<T>, b: seq<T>, id: T -> string)
    requires le == By(id) && Sorted(le, a) && Sorted(le, b) && Distinct(a) && Distinct(b)
    requires (forall x :: x in a <==> x in b) && forall x, y :: x in a && y in a && id(x) == id(y) ==> x == y
    ensures a == b
  {
    ByIsTotal(id);
    DistinctSameMembers(a, b);
    forall x, y | x in a && y in a && le(x, y) && le(y, x) ensures x == y { StringTotal(id(x), id(y)); }
    SortedUnique(le, a, b);
  }

  /** There is only one report about two manifests, whatever order the hash maps are walked in. */
  lemma ReportIsDetermined(published: seq<Entry>, received: seq<Entry>, r: Report, r': Report)
    requires IsReport(published, received, r) && IsReport(published, received, r')
    ensures r == r'
  {
    forall x, y | x in r.missing && y in r.missing && x.eventId == y.eventId ensures x == y {
      FirstByIdMeaning(published, x.eventId);
    }
    ListingUnique(MissingOrder, r.missing, r'.missing, (m: MissingEvent) => m.eventId);
    ListingUnique(DuplicateOrder, r.duplicates, r'.duplicates, (d: DuplicateEvent) => d.eventId);
  }

  ghost predicate NothingLost(published: seq<Entry>, received: seq<Entry>) {
    forall p :: p in published ==> Received(received, p.eventId)
  }

  ghost predicate NothingRepeated(received: seq<Entry>) {
    forall i, j :: 0 <= i < j < |received| ==> received[i].eventId != received[j].eventId
  }

  /** Every received entry carries the checksum of the first entry published with its id. */
  ghost predicate NothingCorrupted(published: seq<Entry>, received: seq<Entry>) {
    forall e, i :: e in received && IsFirst(published, i) && published[i].eventId == e.eventId ==>
      published[i].checksum == e.checksum
  }

  /** The verdict is about loss, repetition and corruption; order is reported beside it. */
  lemma VerdictMeaning(published: seq<Entry>, received: seq<Entry>, r: Report)
    requires IsReport(published, received, r)
    ensures r.pass <==>
      NothingLost(published, received) && NothingRepeated(received) && NothingCorrupted(published, received)
    ensures r.violations == [] <==> InOrder(received)
  {
    MissingIff(published, received, r);
    DuplicatesIff(published, received, r);
    MismatchesIff(published, received, r);
    NoViolationsIff(received);
    SortMultiset(ViolationLe, Violations(received));
  }

  lemma MissingIff(published: seq<Entry>, received: seq<Entry>, r: Report)
    requires IsReport(published, received, r)
    ensures r.missing == [] <==> NothingLost(published, received)
  {
    if r.missing != [] {
      assert IsMissing(published, received, r.missing[0]);
    }
    forall p | p in published && !Received(received, p.eventId) ensures r.missing != [] {
      FirstByIdMeaning(published, p.eventId);
      var i :| IsFirst(published, i) && published[i].eventId == p.eventId;
      assert IsMissing(published, received,
        MissingEvent(published[i].eventId, published[i].publisherId, published[i].seqNo));
    }
  }

  lemma DuplicatesIff(published: seq<Entry>, received: seq<Entry>, r: Report)
    requires IsReport(published, received, r)
    ensures r.duplicates == [] <==> NothingRepeated(received)
  {
    if r.duplicates != [] {
      DuplicateIsCounted(received, r.duplicates[0]);
      CountsMeaning(received, r.duplicates[0].eventId);
    }
    forall i, j | 0 <= i < j < |received| && received[i].eventId == received[j].eventId ensures r.duplicates != [] {
      var id := received[i].eventId;
      CountsMeaning(received, id);
      assert received[i] in received && Twice(received, id);
      assert IsDuplicate(received, DuplicateEvent(id, Counts(received)[id]));
    }
  }

  lemma MismatchesIff(published: seq<Entry>, received: seq<Entry>, r: Report)
    requires IsReport(published, received, r)
    ensures r.mismatches == [] <==> NothingCorrupted(published, received)
  {
    var first := FirstById(published);
    var all := Mismatches(first, received);
    SortMultiset(MismatchOrder, all);
    if all != [] {
      MismatchesMeaning(first, received, all[0]);
      var e :| e in received && Mismatched(first, e, all[0]);
      FirstByIdMeaning(published, e.eventId);
    }
    forall e, i | e in received && IsFirst(published, i) && published[i].eventId == e.eventId &&
      published[i].checksum != e.checksum
      ensures all != []
    {
      FirstByIdMeaning(published, e.eventId);
      MismatchesMeaning(first, received, ChecksumMismatch(e.eventId, published[i].checksum, e.checksum));
    }
  }

  /** Missing events, duplicates and mismatches are listed by event id; violations by publisher, and within one by the
      sequence number that was too low. */
  lemma ReportOrder(published: seq<Entry>, received: seq<Entry>, r: Report, i: nat, j: nat)
    requires IsReport(published, received, r) && i < j
    ensures j < |r.missing| ==>
      r.missing[i].eventId == r.missing[j].eventId || LexLess(r.missing[i].eventId, r.missing[j].eventId)
    ensures j < |r.duplicates| ==>
      r.duplicates[i].eventId == r.duplicates[j].eventId || LexLess(r.duplicates[i].eventId, r.duplicates[j].eventId)
    ensures j < |r.mismatches| ==>
      r.mismatches[i].eventId == r.mismatches[j].eventId || LexLess(r.mismatches[i].eventId, r.mismatches[j].eventId)
    ensures j < |r.violations| ==>
      var v, w := r.violations[i], r.violations[j];
      LexLess(v.publisherId, w.publisherId) || (v.publisherId == w.publisherId && v.currentSeq <= w.currentSeq)
  {
    if j < |r.missing| { StringLeIs(r.missing[i].eventId, r.missing[j].eventId); }
    if j < |r.duplicates| { StringLeIs(r.duplicates[i].eventId, r.duplicates[j].eventId); }
    if j < |r.mismatches| {
      ByIsTotal((c: ChecksumMismatch) => c.eventId);
      SortSorted(MismatchOrder, Mismatches(FirstById(published), received));
      StringLeIs(r.mismatches[i].eventId, r.mismatches[j].eventId);
    }
    if j < |r.violations| {
      ViolationOrderIsTotal();
      SortSorted(ViolationLe, Violations(received));
      StringLeIs(r.violations[i].publisherId, r.violations[j].publisherId);
    }
  }

  lemma MismatchesContents(published: seq<Entry>, received: seq<Entry>, r: Report, c: ChecksumMismatch)
    requires IsReport(published, received, r)
    ensures c in r.mismatches <==> exists e :: e in received && Mismatched(FirstById(published), e, c)
    ensures Sorted(MismatchOrder, r.mismatches)
  {
    var all := Mismatches(FirstById(published), received);
    MismatchesMeaning(FirstById(published), received, c);
    ByIsTotal((c: ChecksumMismatch) => c.eventId);
    SortSorted(MismatchOrder, all);
    SortMembers(MismatchOrder, all);
  }

  lemma ViolationsContents(published: seq<Entry>, received: seq<Entry>, r: Report, v: OrderingViolation)
    requires IsReport(published, received, r)
    ensures v in r.violations <==> exists j, i :: ViolatesAs(received, j, i, v)
    ensures Sorted(ViolationLe, r.violations)
  {
    ViolationsMeaning(received, v);
    ViolationOrderIsTotal();
    SortSorted(ViolationLe, Violations(received));
    SortMembers(ViolationLe, Violations(received));
  }
}
