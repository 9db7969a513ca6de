/** The schema register of a storage agent: one schema a topic, never downgraded. */
module SchemaStores {
  import opened Lists
  import opened Wrappers

  datatype KeyFormat = UnkeyedFormat | KeyedFormat | KeyPrefixFormat

  datatype TopicSchema = TopicSchema(
    name: string, keyPrefix: string, codec: string, numPartitions: nat, keyFormat: KeyFormat,
    version: nat, createdAt: int, updatedAt: int)

  /** What all publishers and subscribers must agree on. */
  function Wire(s: TopicSchema): (string, nat, KeyFormat) { (s.codec, s.numPartitions, s.keyFormat) }

  /** What a topic holds after being offered `s`, and whether the offer was accepted. */
  function Offer(stored: Option<TopicSchema>, s: TopicSchema): (Option<TopicSchema>, bool) {
    if stored.Some? && s.version < stored.value.version then (stored, false)
    else if stored.Some? && s.version == stored.value.version then (stored, Wire(s) == Wire(stored.value))
    else (Some(s), true)
  }

  function Lookup(schemas: map<string, TopicSchema>, k: string): Option<TopicSchema> {
    if k in schemas then Some(schemas[k]) else None
  }

  class SchemaStore {
    var schemas: map<string, TopicSchema>

    /** Opening a directory keeps what it holds. */
    constructor (held: map<string, TopicSchema>)
      ensures schemas == held
    {
      schemas := held;
    }

    method Get(keyPrefix: string) returns (s: Option<TopicSchema>)
      ensures s == Lookup(schemas, keyPrefix)
    {
      s := if keyPrefix in schemas then Some(schemas[keyPrefix]) else None;
    }

    method Put(s: TopicSchema)
      modifies this
      ensures schemas == old(schemas)[s.keyPrefix := s]
    {
      schemas := schemas[s.keyPrefix := s];
    }

    /** Reads and writes with no other call in between; other topics are not affected. */
    method PutIfNewer(s: TopicSchema) returns (accepted: bool)
      modifies this
      ensures (Lookup(schemas, s.keyPrefix), accepted) == Offer(Lookup(old(schemas), s.keyPrefix), s)
      ensures forall k :: k != s.keyPrefix ==> Lookup(schemas, k) == Lookup(old(schemas), k)
      ensures s.keyPrefix !in old(schemas) || s.version > old(schemas)[s.keyPrefix].version ==>
        accepted && schemas == old(schemas)[s.keyPrefix := s]
      ensures s.keyPrefix in old(schemas) && s.version <= old(schemas)[s.keyPrefix].version ==>
        && schemas == old(schemas)
        && (var held := schemas[s.keyPrefix];
            accepted <==> s.version == held.version && s.codec == held.codec
                          && s.numPartitions == held.numPartitions && s.keyFormat == held.keyFormat)
    {
      var existing := Get(s.keyPrefix);
      if existing.Some? {
        if s.version < existing.value.version {
          return false;
        }
        if s.version == existing.value.version {
          if s.codec == existing.value.codec && s.numPartitions == existing.value.numPartitions
             && s.keyFormat == existing.value.keyFormat {
            return true;
          }
          return false;
        }
      }
      Put(s);
      return true;
    }
  }

  // ---------------------------------------------------------------- runs

  /** What topic `k` holds after a sequence of offers to any topics. */
  function Stored(offers: seq<TopicSchema>, k: string): Option<TopicSchema> {
    if offers == [] then None
    else
      var before, s := Stored(offers[..|offers| - 1], k), offers[|offers| - 1];
      if s.keyPrefix == k then Offer(before, s).0 else before
  }

  /** `i` is the first offer to `k` with the highest version offered to it. */
  ghost predicate FirstOfNewest(offers: seq<TopicSchema>, k: string, i: nat)
    requires i < |offers|
  {
    && offers[i].keyPrefix == k
    && (forall j :: 0 <= j < |offers| && offers[j].keyPrefix == k ==> offers[j].version <= offers[i].version)
    && (forall j :: 0 <= j < i && offers[j].keyPrefix == k ==> offers[j].version < offers[i].version)
  }

  /** The register holds the first offer of the highest version, and nothing only if nothing was offered. */
  lemma {:induction false} HoldsFirstOfNewest(offers: seq<TopicSchema>, k: string) returns (i: nat)
    ensures Stored(offers, k).None? <==> forall j :: 0 <= j < |offers| ==> offers[j].keyPrefix != k
    ensures Stored(offers, k).Some? ==>
      i < |offers| && FirstOfNewest(offers, k, i) && Stored(offers, k) == Some(offers[i])
  {
    i := 0;
    if offers != [] {
      var n := |offers| - 1;
      var front := offers[..n];
      i := HoldsFirstOfNewest(front, k);
      if offers[n].keyPrefix == k && (Stored(front, k).None? || offers[n].version > front[i].version) { i := n; }
    }
  }

  lemma FirstOfNewestIsStored(offers: seq<TopicSchema>, k: string, i: nat)
    requires i < |offers| && FirstOfNewest(offers, k, i)
    ensures Stored(offers, k) == Some(offers[i])
  {
    var j := HoldsFirstOfNewest(offers, k);
    assert offers[i].keyPrefix == k;
  }

  /** Versions never go back. */
  lemma {:induction false} VersionsNeverDecrease(a: seq<TopicSchema>, b: seq<TopicSchema>, k: string)
    requires Stored(a, k).Some?
    ensures Stored(a + b, k).Some? && Stored(a, k).value.version <= Stored(a + b, k).value.version
  {
    if b == [] {
      assert a + b == a;
    } else {
      VersionsNeverDecrease(a, b[..|b| - 1], k);
      assert (a + b)[..|a + b| - 1] == a + b[..|b| - 1];
    }
  }

  /** An offer is accepted if and only if afterwards the topic is at its version with its wire contract. */
  lemma AcceptedIffInForce(stored: Option<TopicSchema>, s: TopicSchema)
    ensures Offer(stored, s).1 <==>
      Offer(stored, s).0.Some? &&
        var held := Offer(stored, s).0.value;
        && held.version == s.version && held.codec == s.codec
        && held.numPartitions == s.numPartitions && held.keyFormat == s.keyFormat
  {}

  ghost predicate IsNewest(offers: seq<TopicSchema>, k: string, x: TopicSchema) {
    x in offers && x.keyPrefix == k && forall z :: z in offers && z.keyPrefix == k ==> z.version <= x.version
  }

  /** No two offers to `k` of the highest version differ in their wire contract. */
  ghost predicate NewestAgree(offers: seq<TopicSchema>, k: string) {
    forall x, y :: IsNewest(offers, k, x) && IsNewest(offers, k, y) ==> Wire(x) == Wire(y)
  }

  function WireOf(stored: Option<TopicSchema>): Option<(string, nat, KeyFormat)> {
    if stored.Some? then Some(Wire(stored.value)) else None
  }

  lemma SameNewest(a: seq<TopicSchema>, b: seq<TopicSchema>, k: string)
    requires Elems(a) == Elems(b) && NewestAgree(a, k)
    ensures WireOf(Stored(a, k)) == WireOf(Stored(b, k))
  {
    forall s ensures s in a <==> s in b { assert s in Elems(a) <==> s in Elems(b); }
    var i := HoldsFirstOfNewest(a, k);
    var j := HoldsFirstOfNewest(b, k);
    if Stored(a, k).Some? {
      assert a[i] in b;
      assert b[j] in a;
      assert IsNewest(a, k, a[i]) && IsNewest(a, k, b[j]);
    }
  }

  lemma OfferedFirstWins(offers: seq<TopicSchema>, k: string, x: TopicSchema)
    requires IsNewest(offers, k, x)
    ensures Elems([x] + offers) == Elems(offers) && Stored([x] + offers, k) == Some(x)
  {
    var more := [x] + offers;
    assert FirstOfNewest(more, k, 0) by {
      forall j | 0 <= j < |more| && more[j].keyPrefix == k ensures more[j].version <= x.version {
        assert more[j] in offers;
      }
    }
    FirstOfNewestIsStored(more, k, 0);
  }

  /** The wire contract a topic ends up with does not depend on the order or repetition of offers, if and
      only if the offers of its highest version agree on it. */
  lemma OrderIrrelevantIffNewestAgree(offers: seq<TopicSchema>, k: string)
    ensures NewestAgree(offers, k) <==>
      forall others :: Elems(others) == Elems(offers) ==> WireOf(Stored(others, k)) == WireOf(Stored(offers, k))
  {
    if NewestAgree(offers, k) {
      forall others | Elems(others) == Elems(offers) ensures WireOf(Stored(others, k)) == WireOf(Stored(offers, k)) {
        SameNewest(offers, others, k);
      }
    } else {
      var x, y :| IsNewest(offers, k, x) && IsNewest(offers, k, y) && Wire(x) != Wire(y);
      OfferedFirstWins(offers, k, x);
      OfferedFirstWins(offers, k, y);
      assert Elems([x] + offers) == Elems([y] + offers) == Elems(offers);
    }
  }
}
