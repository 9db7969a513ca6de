/** Override tables and the manager that publishes them. */
module Overrides {
  import opened Lists
  import opened Wrappers
  import opened StoreMachine

  datatype OverrideEntry = OverrideEntry(slot: Slot, nodeId: string, reason: string)

  datatype OverrideTable = OverrideTable(entries: seq<OverrideEntry>, epoch: nat, expiresAt: Option<nat>)

  function DefaultTable(): OverrideTable { OverrideTable([], 0, None) }

  /** The first entry for a slot is the one that counts. */
  function FindOverride(entries: seq<OverrideEntry>, s: Slot): Option<OverrideEntry> {
    if entries == [] then None
    else if entries[0].slot == s then Some(entries[0])
    else FindOverride(entries[1..], s)
  }

  function OtherSlots(entries: seq<OverrideEntry>, s: Slot): seq<OverrideEntry> {
    Filter((e: OverrideEntry) => e.slot != s, entries)
  }

  /** New entries replace old ones for the same slot. */
  function Merge(entries: seq<OverrideEntry>, news: seq<OverrideEntry>): seq<OverrideEntry>
    decreases |news|
  {
    if news == [] then entries
    else Merge(OtherSlots(entries, news[0].slot) + [news[0]], news[1..])
  }

  ghost predicate DistinctSlots(entries: seq<OverrideEntry>) {
    forall i, j :: 0 <= i < j < |entries| ==> entries[i].slot != entries[j].slot
  }

  ghost predicate Mentions(entries: seq<OverrideEntry>, s: Slot) {
    exists e :: e in entries && e.slot == s
  }

  /** The entries for slots that `news` does not mention. */
  ghost function Untouched(entries: seq<OverrideEntry>, news: seq<OverrideEntry>): seq<OverrideEntry> {
    Filter((e: OverrideEntry) => !Mentions(news, e.slot), entries)
  }

  lemma MentionsCons(n: OverrideEntry, rest: seq<OverrideEntry>, s: Slot)
    ensures Mentions([n] + rest, s) <==> n.slot == s || Mentions(rest, s)
  {
    if Mentions(rest, s) { var x :| x in rest && x.slot == s; assert x in [n] + rest; }
    if n.slot == s { assert n in [n] + rest; }
  }

  /** Of several entries for one slot only the last. */
  ghost function Lasts(news: seq<OverrideEntry>): seq<OverrideEntry> {
    if news == [] then []
    else (if Mentions(news[1..], news[0].slot) then [] else [news[0]]) + Lasts(news[1..])
  }

  lemma UntouchedStep(entries: seq<OverrideEntry>, n: OverrideEntry, rest: seq<OverrideEntry>)
    ensures Untouched(OtherSlots(entries, n.slot) + [n], rest) ==
      Untouched(entries, [n] + rest) + if Mentions(rest, n.slot) then [] else [n]
  {
    var p := (e: OverrideEntry) => !Mentions(rest, e.slot);
    var q := (e: OverrideEntry) => e.slot != n.slot;
    var r := (e: OverrideEntry) => !Mentions([n] + rest, e.slot);
    FilterConcat(p, OtherSlots(entries, n.slot), [n]);
    assert Filter(p, [n]) == if Mentions(rest, n.slot) then [] else [n] by { assert [n][1..] == []; }
    forall e: OverrideEntry ensures r(e) <==> p(e) && q(e) { MentionsCons(n, rest, e.slot); }
    FilterTwice(p, q, r, entries);
  }

  /** Merging keeps the untouched old entries in order and appends the new ones in order, the last one of a slot
      if there are several. */
  lemma {:induction false} MergeMeaning(entries: seq<OverrideEntry>, news: seq<OverrideEntry>)
    ensures Merge(entries, news) == Untouched(entries, news) + Lasts(news)
    decreases |news|
  {
    if news == [] {
      FilterKeepsAll((e: OverrideEntry) => !Mentions(news, e.slot), entries);
    } else {
      var n, rest := news[0], news[1..];
      var one := if Mentions(rest, n.slot) then [] else [n];
      MergeMeaning(OtherSlots(entries, n.slot) + [n], rest);
      UntouchedStep(entries, n, rest);
      assert news == [n] + rest && Lasts(news) == one + Lasts(rest);
      Associates(Untouched(entries, news), one, Lasts(rest));
    }
  }

  lemma Associates<T>(a: seq<T>, b: seq<T>, c: seq<T>)
    ensures (a + b) + c == a + (b + c)
  {
  }

  lemma {:induction false} LastsOfDistinct(news: seq<OverrideEntry>)
    requires DistinctSlots(news)
    ensures Lasts(news) == news
  {
    if news != [] {
      var n, rest := news[0], news[1..];
      assert !Mentions(rest, n.slot) by {
        assert forall j :: 0 <= j < |rest| ==> rest[j] == news[j + 1] && news[0].slot != news[j + 1].slot;
      }
      LastsOfDistinct(rest);
      assert news == [n] + rest;
    }
  }

  // ---------------------------------------------------------------- one slot of a table

  /** The entries for a slot. */
  function Of(entries: seq<OverrideEntry>, s: Slot): seq<OverrideEntry> {
    Filter((e: OverrideEntry) => e.slot == s, entries)
  }

  lemma {:induction false} FindIsFirstOf(entries: seq<OverrideEntry>, s: Slot)
    ensures FindOverride(entries, s) == if Of(entries, s) == [] then None else Some(Of(entries, s)[0])
    ensures Mentions(entries, s) <==> Of(entries, s) != []
  {
    if entries != [] {
      FindIsFirstOf(entries[1..], s);
      assert entries == [entries[0]] + entries[1..];
      MentionsCons(entries[0], entries[1..], s);
    }
  }

  /** The last entry for a slot. */
  function LastOf(entries: seq<OverrideEntry>, s: Slot): OverrideEntry
    requires Of(entries, s) != []
  {
    Of(entries, s)[|Of(entries, s)| - 1]
  }

  lemma OfReplaced(entries: seq<OverrideEntry>, n: OverrideEntry, s: Slot)
    ensures Of(OtherSlots(entries, n.slot) + [n], s) == if n.slot == s then [n] else Of(entries, s)
  {
    var at, off := (e: OverrideEntry) => e.slot == s, (e: OverrideEntry) => e.slot != n.slot;
    FilterConcat(at, OtherSlots(entries, n.slot), [n]);
    assert Filter(at, [n]) == if n.slot == s then [n] else [] by { assert [n][1..] == []; }
    if n.slot == s {
      FilterMembers(off, entries);
      FilterNone(at, OtherSlots(entries, s));
    } else {
      FilterTwice(at, off, at, entries);
    }
  }

  lemma OfCons(n: OverrideEntry, rest: seq<OverrideEntry>, s: Slot)
    ensures Of([n] + rest, s) == (if n.slot == s then [n] else []) + Of(rest, s)
  {
    assert ([n] + rest)[1..] == rest;
  }

  /** After a merge a slot that the new entries mention has the last of them and nothing else; the other slots
      have what they had. */
  lemma {:induction false} MergeOf(entries: seq<OverrideEntry>, news: seq<OverrideEntry>, s: Slot)
    ensures Of(Merge(entries, news), s) == if Of(news, s) == [] then Of(entries, s) else [LastOf(news, s)]
    decreases |news|
  {
    if news != [] {
      var n, rest := news[0], news[1..];
      MergeOf(OtherSlots(entries, n.slot) + [n], rest, s);
      OfReplaced(entries, n, s);
      assert news == [n] + rest;
      OfCons(n, rest, s);
    }
  }

  /** So the last of the new entries decides its slot, and the old ones all the others. */
  lemma MergeDecides(entries: seq<OverrideEntry>, news: seq<OverrideEntry>, s: Slot)
    ensures FindOverride(Merge(entries, news), s) ==
      if Of(news, s) != [] then Some(LastOf(news, s)) else FindOverride(entries, s)
    ensures Of(news, s) != [] <==> Mentions(news, s)
  {
    MergeOf(entries, news, s);
    FindIsFirstOf(Merge(entries, news), s);
    FindIsFirstOf(entries, s);
    FindIsFirstOf(news, s);
  }

  lemma {:induction false} OfDistinct(entries: seq<OverrideEntry>, e: OverrideEntry)
    requires DistinctSlots(entries) && e in entries
    ensures Of(entries, e.slot) == [e]
  {
    var n, rest := entries[0], entries[1..];
    assert entries == [n] + rest;
    OfCons(n, rest, e.slot);
    assert forall j :: 0 <= j < |rest| ==> rest[j] == entries[j + 1] && entries[0].slot != entries[j + 1].slot;
    if n == e {
      FilterNone((x: OverrideEntry) => x.slot == e.slot, rest);
    } else {
      OfDistinct(rest, e);
    }
  }

  /** The orchestrator's copy of the table. Publishing hands the new table to the network; `putOk` says
      whether that succeeds, and when it does not nothing changes here. */
  class OverrideManager {
    var current: OverrideTable

    constructor ()
      ensures current == DefaultTable()
    {
      current := DefaultTable();
    }

    method PublishEntries(entries: seq<OverrideEntry>, expiresAt: Option<nat>, putOk: bool)
      returns (published: Option<OverrideTable>)
      modifies this
      ensures published == if putOk then Some(OverrideTable(entries, old(current).epoch + 1, expiresAt)) else None
      ensures current == if putOk then published.value else old(current)
    {
      var table := OverrideTable(entries, current.epoch + 1, expiresAt);
      if !putOk {
        return None;
      }
      current := table;
      return Some(table);
    }

    method Clear(putOk: bool) returns (published: Option<OverrideTable>)
      modifies this
      ensures current == if putOk then OverrideTable([], old(current).epoch + 1, None) else old(current)
    {
      published := PublishEntries([], None, putOk);
    }

    method RemoveEntriesForNode(nodeId: string, putOk: bool) returns (published: Option<OverrideTable>)
      modifies this
      ensures !putOk ==> current == old(current)
      ensures putOk ==>
        current == OverrideTable(Filter((e: OverrideEntry) => e.nodeId != nodeId, old(current).entries),
          old(current).epoch + 1, None)
    {
      var remaining := Filter((e: OverrideEntry) => e.nodeId != nodeId, current.entries);
      published := PublishEntries(remaining, None, putOk);
    }

    /** Reads, merges and publishes with no other publish in between. */
    method AddEntries(newEntries: seq<OverrideEntry>, expiresAt: Option<nat>, putOk: bool)
      returns (published: Option<OverrideTable>)
      modifies this
      ensures !putOk ==> current == old(current)
      ensures putOk ==>
        current == OverrideTable(Merge(old(current).entries, newEntries), old(current).epoch + 1, expiresAt)
    {
      var merged := current.entries;
      for i := 0 to |newEntries|
        invariant current == old(current)
        invariant Merge(merged, newEntries[i..]) == Merge(old(current).entries, newEntries)
      {
        assert newEntries[i..][1..] == newEntries[i + 1..];
        merged := OtherSlots(merged, newEntries[i].slot) + [newEntries[i]];
      }
      published := PublishEntries(merged, expiresAt, putOk);
    }
  }
}
