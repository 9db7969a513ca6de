/** Consumer group lag: highest watermarks and committed offsets seen, and the reports made from them. */
module Lag {
  import opened Numbers

  datatype WatermarkKey = WatermarkKey(partition: nat, publisher: string)
  datatype OffsetKey = OffsetKey(group: string, partition: nat, publisher: string)

  datatype WatermarkMsg = WatermarkMsg(partition: nat, publishers: map<string, nat>)
  datatype CommitMsg = CommitMsg(group: string, partition: nat, offsets: map<string, nat>)

  // ---------------------------------------------------------------- max registers

  function Get<K>(m: map<K, nat>, k: K): nat { if k in m then m[k] else 0 }

  /** Every register in `news` is raised to its value there, if that is higher. */
  function Raise<K>(m: map<K, nat>, news: map<K, nat>): map<K, nat> {
    map k | k in m.Keys + news.Keys :: Max(Get(m, k), Get(news, k))
  }

  function WatermarkNews(msg: WatermarkMsg): map<WatermarkKey, nat> {
    map k: WatermarkKey | k in (set x | x in msg.publishers :: WatermarkKey(msg.partition, x)) ::
      msg.publishers[k.publisher]
  }

  function CommitNews(msg: CommitMsg): map<OffsetKey, nat> {
    map k: OffsetKey | k in (set x | x in msg.offsets :: OffsetKey(msg.group, msg.partition, x)) ::
      msg.offsets[k.publisher]
  }

  /** The registers after a sequence of messages, each bringing its `news`. */
  function Registers<M, K>(msgs: seq<M>, news: M -> map<K, nat>): map<K, nat> {
    if msgs == [] then map[] else Raise(Registers(msgs[..|msgs| - 1], news), news(msgs[|msgs| - 1]))
  }

  /** `v` is the highest value any of the messages gave register `k`. */
  ghost predicate IsHighest<M(!new), K>(msgs: seq<M>, news: M -> map<K, nat>, k: K, v: nat) {
    && (exists m :: m in msgs && k in news(m) && news(m)[k] == v)
    && (forall m :: m in msgs && k in news(m) ==> news(m)[k] <= v)
  }

  lemma {:induction false} RegistersAreHighest<M(!new), K>(msgs: seq<M>, news: M -> map<K, nat>, k: K)
    ensures k in Registers(msgs, news) <==> exists m :: m in msgs && k in news(m)
    ensures k in Registers(msgs, news) ==> IsHighest(msgs, news, k, Registers(msgs, news)[k])
  {
    if msgs != [] {
      var front, last := msgs[..|msgs| - 1], msgs[|msgs| - 1];
      RegistersAreHighest(front, news, k);
      assert msgs == front + [last];
      if k in Registers(front, news) {
        var m :| m in front && k in news(m) && news(m)[k] == Registers(front, news)[k];
        assert m in msgs;
      }
      if k in news(last) { assert last in msgs; }
    }
  }

  /** Neither order nor repetition of messages matters: the registers depend only on which were seen. */
  lemma RegistersIgnoreOrder<M(!new), K(!new)>(a: seq<M>, b: seq<M>, news: M -> map<K, nat>)
    requires forall m :: m in a <==> m in b
    ensures Registers(a, news) == Registers(b, news)
  {
    forall k ensures k in Registers(a, news) <==> k in Registers(b, news)
             ensures k in Registers(a, news) ==> Registers(a, news)[k] == Registers(b, news)[k]
    {
      RegistersAreHighest(a, news, k);
      RegistersAreHighest(b, news, k);
    }
  }

  lemma WatermarkNewsStep(msg: WatermarkMsg, x: string, v: nat)
    requires x !in msg.publishers
    ensures WatermarkKey(msg.partition, x) !in WatermarkNews(msg)
    ensures WatermarkNews(msg.(publishers := msg.publishers[x := v])) ==
      WatermarkNews(msg)[WatermarkKey(msg.partition, x) := v]
  {
  }

  lemma CommitNewsStep(msg: CommitMsg, x: string, v: nat)
    requires x !in msg.offsets
    ensures OffsetKey(msg.group, msg.partition, x) !in CommitNews(msg)
    ensures CommitNews(msg.(offsets := msg.offsets[x := v])) ==
      CommitNews(msg)[OffsetKey(msg.group, msg.partition, x) := v]
  {
  }

  /** Raising one more register. */
  lemma RaiseStep<K>(m: map<K, nat>, news: map<K, nat>, k: K, v: nat)
    requires k !in news
    ensures Raise(m, news[k := v]) == Raise(m, news)[k := Max(Get(m, k), v)]
    ensures Get(Raise(m, news), k) == Get(m, k)
  {
  }

  // ---------------------------------------------------------------- reports

  datatype LagReport = LagReport(publishers: map<string, nat>, total: nat)

  function LagOf(wm: map<WatermarkKey, nat>, offsets: map<OffsetKey, nat>, k: OffsetKey): nat {
    SaturatingSub(Get(wm, WatermarkKey(k.partition, k.publisher)), Get(offsets, k))
  }

  function PublishersOf(offsets: map<OffsetKey, nat>, group: string, partition: nat): set<string> {
    set k | k in offsets && k.group == group && k.partition == partition :: k.publisher
  }

  function Publishers(wm: map<WatermarkKey, nat>, offsets: map<OffsetKey, nat>, group: string,
                      partition: nat): map<string, nat>
  {
    map x | x in PublishersOf(offsets, group, partition) :: LagOf(wm, offsets, OffsetKey(group, partition, x))
  }

  ghost function SumOver(keys: set<string>, m: map<string, nat>): nat
    requires keys <= m.Keys
  {
    if keys == {} then 0
    else
      var x :| x in keys;
      m[x] + SumOver(keys - {x}, m)
  }

  lemma {:induction false} SumOverRemove(keys: set<string>, m: map<string, nat>, x: string)
    requires keys <= m.Keys && x in keys
    ensures SumOver(keys, m) == m[x] + SumOver(keys - {x}, m)
  {
    var y :| y in keys && SumOver(keys, m) == m[y] + SumOver(keys - {y}, m);
    if x != y {
      SumOverRemove(keys - {y}, m, x);
      SumOverRemove(keys - {x}, m, y);
      assert keys - {y} - {x} == keys - {x} - {y};
    }
  }

  ghost function Report(wm: map<WatermarkKey, nat>, offsets: map<OffsetKey, nat>, group: string,
                        partition: nat): LagReport
  {
    var p := Publishers(wm, offsets, group, partition);
    LagReport(p, SumOver(p.Keys, p))
  }

  method Total(m: map<string, nat>) returns (total: nat)
    ensures total == SumOver(m.Keys, m)
  {
    total := 0;
    var todo := m.Keys;
    while todo != {}
      invariant todo <= m.Keys && total + SumOver(todo, m) == SumOver(m.Keys, m)
      decreases todo
    {
      var x :| x in todo;
      SumOverRemove(todo, m, x);
      total := total + m[x];
      todo := todo - {x};
    }
  }

  // ---------------------------------------------------------------- grouping the offsets

  /** `groups` with the lag of one publisher recorded under key `g`. */
  function Record<G>(groups: map<G, map<string, nat>>, g: G, publisher: string, lag: nat): map<G, map<string, nat>> {
    groups[g := (if g in groups then groups[g] else map[])[publisher := lag]]
  }

  predicate Recorded<G>(groups: map<G, map<string, nat>>, g: G, publisher: string) {
    g in groups && publisher in groups[g]
  }

  /** `groups` holds the lags of exactly the committed keys in `done`; `key` says which group and partition
      an entry of `groups` stands for. */
  ghost predicate Grouped<G(!new)>(groups: map<G, map<string, nat>>, key: G -> (string, nat),
                                   wm: map<WatermarkKey, nat>, offsets: map<OffsetKey, nat>, done: set<OffsetKey>)
  {
    && (forall g, x :: Recorded(groups, g, x) <==> OffsetKey(key(g).0, key(g).1, x) in done)
    && (forall g, x :: Recorded(groups, g, x) ==> groups[g][x] == LagOf(wm, offsets, OffsetKey(key(g).0, key(g).1, x)))
    && (forall g :: g in groups ==> exists x :: Recorded(groups, g, x))
  }

  lemma RecordedAfter<G>(groups: map<G, map<string, nat>>, g: G, publisher: string, lag: nat, h: G, x: string)
    ensures Recorded(Record(groups, g, publisher, lag), h, x) <==> Recorded(groups, h, x) || (h == g && x == publisher)
    ensures Recorded(Record(groups, g, publisher, lag), h, x) ==>
      Record(groups, g, publisher, lag)[h][x] == if h == g && x == publisher then lag else groups[h][x]
  {
  }

  lemma GroupedStep<G(!new)>(groups: map<G, map<string, nat>>, key: G -> (string, nat),
                             wm: map<WatermarkKey, nat>, offsets: map<OffsetKey, nat>, done: set<OffsetKey>,
                             k: OffsetKey, g: G)
    requires Grouped(groups, key, wm, offsets, done)
    requires key(g) == (k.group, k.partition) && forall h :: key(h) == key(g) ==> h == g
    ensures Grouped(Record(groups, g, k.publisher, LagOf(wm, offsets, k)), key, wm, offsets, done + {k})
  {
    var groups' := Record(groups, g, k.publisher, LagOf(wm, offsets, k));
    forall h, x
      ensures Recorded(groups', h, x) <==> OffsetKey(key(h).0, key(h).1, x) in done + {k}
      ensures Recorded(groups', h, x) ==> groups'[h][x] == LagOf(wm, offsets, OffsetKey(key(h).0, key(h).1, x))
    {
      RecordedAfter(groups, g, k.publisher, LagOf(wm, offsets, k), h, x);
      assert OffsetKey(key(h).0, key(h).1, x) == k <==> h == g && x == k.publisher;
    }
    forall h | h in groups' ensures exists x :: Recorded(groups', h, x) {
      var x :| if h == g then x == k.publisher else Recorded(groups, h, x);
      RecordedAfter(groups, g, k.publisher, LagOf(wm, offsets, k), h, x);
    }
  }

  lemma HasPublisher(offsets: map<OffsetKey, nat>, k: OffsetKey)
    ensures k.publisher in PublishersOf(offsets, k.group, k.partition) <==> k in offsets
  {
  }

  lemma SamePublishers<G(!new)>(groups: map<G, map<string, nat>>, key: G -> (string, nat),
                                wm: map<WatermarkKey, nat>, offsets: map<OffsetKey, nat>, done: set<OffsetKey>, g: G)
    requires Grouped(groups, key, wm, offsets, done)
    requires forall x :: Recorded(groups, g, x) <==> x in PublishersOf(offsets, key(g).0, key(g).1)
    ensures g in groups ==> groups[g] == Publishers(wm, offsets, key(g).0, key(g).1)
  {
    if g in groups {
      var p := Publishers(wm, offsets, key(g).0, key(g).1);
      assert forall x :: x in groups[g] <==> Recorded(groups, g, x);
      assert groups[g].Keys == p.Keys;
      assert forall x :: x in p ==> Recorded(groups, g, x) && groups[g][x] == p[x];
    }
  }

  lemma GroupedEnd<G(!new)>(groups: map<G, map<string, nat>>, key: G -> (string, nat),
                            wm: map<WatermarkKey, nat>, offsets: map<OffsetKey, nat>, done: set<OffsetKey>, g: G)
    requires Grouped(groups, key, wm, offsets, done)
    requires forall k: OffsetKey :: (k.group, k.partition) == key(g) ==> (k in done <==> k in offsets)
    ensures g in groups <==> PublishersOf(offsets, key(g).0, key(g).1) != {}
    ensures g in groups ==> groups[g] == Publishers(wm, offsets, key(g).0, key(g).1)
  {
    forall x ensures Recorded(groups, g, x) <==> x in PublishersOf(offsets, key(g).0, key(g).1) {
      HasPublisher(offsets, OffsetKey(key(g).0, key(g).1, x));
    }
    SamePublishers(groups, key, wm, offsets, done, g);
  }

  /** A register created at zero when it is new, then raised to `v` if `v` is higher. */
  method RaiseTo<K(==)>(m: map<K, nat>, k: K, v: nat) returns (m': map<K, nat>)
    ensures m' == m[k := Max(Get(m, k), v)]
  {
    m' := m;
    if k !in m' {
      m' := m'[k := 0];
    }
    if v > m'[k] {
      m' := m'[k := v];
    }
  }

  class LagMonitor {
    var watermarks: map<WatermarkKey, nat>
    var offsets: map<OffsetKey, nat>

    constructor ()
      ensures watermarks == map[] && offsets == map[]
    {
      watermarks, offsets := map[], map[];
    }

    method OnWatermark(msg: WatermarkMsg)
      modifies this`watermarks
      ensures watermarks == Raise(old(watermarks), WatermarkNews(msg))
    {
      var todo := msg.publishers.Keys;
      ghost var done: map<string, nat> := map[];
      while todo != {}
        invariant todo <= msg.publishers.Keys
        invariant done.Keys == msg.publishers.Keys - todo && forall x :: x in done ==> done[x] == msg.publishers[x]
        invariant watermarks == Raise(old(watermarks), WatermarkNews(WatermarkMsg(msg.partition, done)))
        decreases todo
      {
        var x :| x in todo;
        var key := WatermarkKey(msg.partition, x);
        WatermarkNewsStep(WatermarkMsg(msg.partition, done), x, msg.publishers[x]);
        RaiseStep(old(watermarks), WatermarkNews(WatermarkMsg(msg.partition, done)), key, msg.publishers[x]);
        done := done[x := msg.publishers[x]];
        watermarks := RaiseTo(watermarks, key, msg.publishers[x]);
        todo := todo - {x};
      }
      assert done == msg.publishers;
    }

    method OnCommit(msg: CommitMsg)
      modifies this`offsets
      ensures offsets == Raise(old(offsets), CommitNews(msg))
    {
      var todo := msg.offsets.Keys;
      ghost var done: map<string, nat> := map[];
      while todo != {}
        invariant todo <= msg.offsets.Keys
        invariant done.Keys == msg.offsets.Keys - todo && forall x :: x in done ==> done[x] == msg.offsets[x]
        invariant offsets == Raise(old(offsets), CommitNews(CommitMsg(msg.group, msg.partition, done)))
        decreases todo
      {
        var x :| x in todo;
        var key := OffsetKey(msg.group, msg.partition, x);
        CommitNewsStep(CommitMsg(msg.group, msg.partition, done), x, msg.offsets[x]);
        RaiseStep(old(offsets), CommitNews(CommitMsg(msg.group, msg.partition, done)), key, msg.offsets[x]);
        done := done[x := msg.offsets[x]];
        offsets := RaiseTo(offsets, key, msg.offsets[x]);
        todo := todo - {x};
      }
      assert done == msg.offsets;
    }

    /** The lags of one group, by partition. */
    method LagsByPartition(group: string) returns (byPartition: map<nat, map<string, nat>>)
      ensures forall p :: p in byPartition <==> PublishersOf(offsets, group, p) != {}
      ensures forall p :: p in byPartition ==> byPartition[p] == Publishers(watermarks, offsets, group, p)
    {
      byPartition := map[];
      var todo := offsets.Keys;
      ghost var key: nat -> (string, nat) := p => (group, p);
      ghost var done: set<OffsetKey> := {};
      while todo != {}
        invariant todo <= offsets.Keys
        invariant forall k :: k in done <==> k in offsets && k !in todo && k.group == group
        invariant Grouped(byPartition, key, watermarks, offsets, done)
        decreases todo
      {
        var k :| k in todo;
        todo := todo - {k};
        if k.group != group {
          continue;
        }
        var wmSeq := Get(watermarks, WatermarkKey(k.partition, k.publisher));
        GroupedStep(byPartition, key, watermarks, offsets, done, k, k.partition);
        byPartition := Record(byPartition, k.partition, k.publisher, SaturatingSub(wmSeq, offsets[k]));
        done := done + {k};
      }
      forall p ensures p in byPartition <==> PublishersOf(offsets, group, p) != {}
               ensures p in byPartition ==> byPartition[p] == Publishers(watermarks, offsets, group, p)
      {
        GroupedEnd(byPartition, key, watermarks, offsets, done, p);
      }
    }

    /** The reports of one group, by partition. */
    method GetGroupLag(group: string) returns (reports: map<nat, LagReport>)
      ensures forall p :: p in reports <==> PublishersOf(offsets, group, p) != {}
      ensures forall p :: p in reports ==> reports[p] == Report(watermarks, offsets, group, p)
    {
      var byPartition := LagsByPartition(group);
      reports := map[];
      var parts := byPartition.Keys;
      while parts != {}
        invariant parts <= byPartition.Keys && reports.Keys == byPartition.Keys - parts
        invariant forall p :: p in reports ==> reports[p] == Report(watermarks, offsets, group, p)
        decreases parts
      {
        var p :| p in parts;
        var total := Total(byPartition[p]);
        reports := reports[p := LagReport(byPartition[p], total)];
        parts := parts - {p};
      }
    }

    /** The lags of every group and partition. */
    method LagsByGroup() returns (groups: map<(string, nat), map<string, nat>>)
      ensures forall gp :: gp in groups <==> PublishersOf(offsets, gp.0, gp.1) != {}
      ensures forall gp :: gp in groups ==> groups[gp] == Publishers(watermarks, offsets, gp.0, gp.1)
    {
      groups := map[];
      var todo := offsets.Keys;
      ghost var key: ((string, nat)) -> (string, nat) := gp => gp;
      ghost var done: set<OffsetKey> := {};
      while todo != {}
        invariant done == offsets.Keys - todo && todo <= offsets.Keys
        invariant Grouped(groups, key, watermarks, offsets, done)
        decreases todo
      {
        var k :| k in todo;
        todo := todo - {k};
        var gp := (k.group, k.partition);
        var wmSeq := Get(watermarks, WatermarkKey(k.partition, k.publisher));
        GroupedStep(groups, key, watermarks, offsets, done, k, gp);
        groups := Record(groups, gp, k.publisher, SaturatingSub(wmSeq, offsets[k]));
        done := done + {k};
      }
      forall gp ensures gp in groups <==> PublishersOf(offsets, gp.0, gp.1) != {}
                ensures gp in groups ==> groups[gp] == Publishers(watermarks, offsets, gp.0, gp.1)
      {
        GroupedEnd(groups, key, watermarks, offsets, done, gp);
      }
    }

    /** What the periodic publisher computes: the reports of all groups at once. */
    method AllReports() returns (reports: map<(string, nat), LagReport>)
      ensures forall gp :: gp in reports <==> PublishersOf(offsets, gp.0, gp.1) != {}
      ensures forall gp :: gp in reports ==> reports[gp] == Report(watermarks, offsets, gp.0, gp.1)
    {
      var groups := LagsByGroup();
      reports := map[];
      var parts := groups.Keys;
      while parts != {}
        invariant parts <= groups.Keys && reports.Keys == groups.Keys - parts
        invariant forall gp :: gp in reports ==> reports[gp] == Report(watermarks, offsets, gp.0, gp.1)
        decreases parts
      {
        var gp :| gp in parts;
        var total := Total(groups[gp]);
        reports := reports[gp := LagReport(groups[gp], total)];
        parts := parts - {gp};
      }
    }
  }

  // ---------------------------------------------------------------- order does not matter

  ghost function ReportAfter(wms: seq<WatermarkMsg>, commits: seq<CommitMsg>, group: string, partition: nat): LagReport
  {
    Report(Registers(wms, WatermarkNews), Registers(commits, CommitNews), group, partition)
  }

  /** A report depends only on which messages arrived, not on their order or repetition. */
  lemma ReportIgnoresOrder(wms: seq<WatermarkMsg>, wms': seq<WatermarkMsg>,
                           commits: seq<CommitMsg>, commits': seq<CommitMsg>, group: string, partition: nat)
    requires (forall m :: m in wms <==> m in wms') && (forall m :: m in commits <==> m in commits')
    ensures ReportAfter(wms, commits, group, partition) == ReportAfter(wms', commits', group, partition)
  {
    RegistersIgnoreOrder(wms, wms', WatermarkNews);
    RegistersIgnoreOrder(commits, commits', CommitNews);
  }

  ghost predicate Watermarked(msg: WatermarkMsg, partition: nat, x: string) {
    msg.partition == partition && x in msg.publishers
  }

  ghost predicate Committed(msg: CommitMsg, group: string, partition: nat, x: string) {
    msg.group == group && msg.partition == partition && x in msg.offsets
  }

  /** The highest watermark of a publisher, 0 when there is none. */
  ghost predicate HighestWatermark(wms: seq<WatermarkMsg>, partition: nat, x: string, w: nat) {
    && (w == 0 || exists m :: m in wms && Watermarked(m, partition, x) && m.publishers[x] == w)
    && (forall m :: m in wms && Watermarked(m, partition, x) ==> m.publishers[x] <= w)
  }

  ghost predicate HighestCommit(commits: seq<CommitMsg>, group: string, partition: nat, x: string, c: nat) {
    && (exists m :: m in commits && Committed(m, group, partition, x) && m.offsets[x] == c)
    && (forall m :: m in commits && Committed(m, group, partition, x) ==> m.offsets[x] <= c)
  }

  lemma WatermarkIsHighest(wms: seq<WatermarkMsg>, partition: nat, x: string)
    ensures HighestWatermark(wms, partition, x, Get(Registers(wms, WatermarkNews), WatermarkKey(partition, x)))
  {
    var k := WatermarkKey(partition, x);
    assert forall m :: Watermarked(m, partition, x) <==> k in WatermarkNews(m);
    RegistersAreHighest(wms, WatermarkNews, k);
  }

  lemma CommitIsHighest(commits: seq<CommitMsg>, group: string, partition: nat, x: string)
    ensures var k, r := OffsetKey(group, partition, x), Registers(commits, CommitNews);
      && (k in r <==> exists m :: m in commits && Committed(m, group, partition, x))
      && (k in r ==> HighestCommit(commits, group, partition, x, r[k]))
  {
    var k := OffsetKey(group, partition, x);
    assert forall m :: Committed(m, group, partition, x) <==> k in CommitNews(m);
    RegistersAreHighest(commits, CommitNews, k);
  }

  /** A publisher is in a report exactly when the group committed for it, and its lag is then the highest
      watermark less the highest commit, not below zero. */
  lemma LagIsHighestLessHighest(wms: seq<WatermarkMsg>, commits: seq<CommitMsg>, group: string, partition: nat,
                                x: string)
    ensures var lags := ReportAfter(wms, commits, group, partition).publishers;
      && (x in lags <==> exists m :: m in commits && Committed(m, group, partition, x))
      && (x in lags ==>
            forall w: nat, c: nat :: HighestWatermark(wms, partition, x, w) &&
              HighestCommit(commits, group, partition, x, c)
              ==> lags[x] == SaturatingSub(w, c))
      && (x in lags ==>
        exists w: nat, c: nat :: HighestWatermark(wms, partition, x, w) &&
          HighestCommit(commits, group, partition, x, c))
  {
    var wm, offsets := Registers(wms, WatermarkNews), Registers(commits, CommitNews);
    var k := OffsetKey(group, partition, x);
    HasPublisher(offsets, k);
    WatermarkIsHighest(wms, partition, x);
    CommitIsHighest(commits, group, partition, x);
    if k in offsets {
      HighestAreUnique(wms, commits, group, partition, x, Get(wm, WatermarkKey(partition, x)), offsets[k]);
    }
  }

  lemma HighestAreUnique(wms: seq<WatermarkMsg>, commits: seq<CommitMsg>, group: string, partition: nat, x: string,
                         w: nat, c: nat)
    requires HighestWatermark(wms, partition, x, w) && HighestCommit(commits, group, partition, x, c)
    ensures forall v :: HighestWatermark(wms, partition, x, v) ==> v == w
    ensures forall d :: HighestCommit(commits, group, partition, x, d) ==> d == c
  {
  }
}
