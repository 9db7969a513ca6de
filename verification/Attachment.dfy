/** The binary attachment that carries an event's metadata: 50 bytes, or 62 with the store's clock. */
module Attachment {
  import opened Numbers
  import opened Wrappers

  const I64: int := 0x8000_0000_0000_0000

  type byte = b: nat | b < 256 witness 0
  type u16 = n: nat | n < U16 witness 0
  type u32 = n: nat | n < U32 witness 0
  type u64 = n: nat | n < U64 witness 0
  type Uuid = s: seq<byte> | |s| == 16 witness seq(16, i => 0)

  const ATTACHMENT_SIZE: nat := 50
  const EXTENDED_ATTACHMENT_SIZE: nat := 62

  /** `timestamp` is in nanoseconds since the epoch; calendar times reach far beyond 64 bits of those. */
  datatype EventMeta = EventMeta(
    seqNo: u64, pubId: Uuid, eventId: Uuid, timestamp: int, urgencyMs: u16,
    hlcPhysicalNs: Option<u64>, hlcLogical: Option<u32>)

  // ---------------------------------------------------------------- numbers

  function Pow256(k: nat): (p: nat)
    ensures p > 0
  {
    if k == 0 then 1 else 256 * Pow256(k - 1)
  }

  /** Big-endian, `k` bytes. */
  function ToBytes(n: nat, k: nat): (b: seq<byte>)
    ensures |b| == k
  {
    if k == 0 then [] else ToBytes(n / 256, k - 1) + [n % 256]
  }

  function FromBytes(b: seq<byte>): nat {
    if b == [] then 0 else 256 * FromBytes(b[..|b| - 1]) + b[|b| - 1]
  }

  lemma {:induction false} FromToBytes(n: nat, k: nat)
    requires n < Pow256(k)
    ensures FromBytes(ToBytes(n, k)) == n
  {
    if k > 0 {
      FromToBytes(n / 256, k - 1);
      assert ToBytes(n, k)[..k - 1] == ToBytes(n / 256, k - 1);
    }
  }

  lemma {:induction false} ToFromBytes(b: seq<byte>)
    ensures FromBytes(b) < Pow256(|b|) && ToBytes(FromBytes(b), |b|) == b
  {
    if b != [] {
      ToFromBytes(b[..|b| - 1]);
      assert FromBytes(b) / 256 == FromBytes(b[..|b| - 1]) && FromBytes(b) % 256 == b[|b| - 1];
    }
  }

  lemma Widths()
    ensures Pow256(2) == U16 && Pow256(4) == U32 && Pow256(8) == U64
  {
    assert Pow256(2) == 256 * Pow256(1) && Pow256(1) == 256 * Pow256(0);
    assert Pow256(4) == 256 * Pow256(3) && Pow256(3) == 256 * Pow256(2);
    assert Pow256(6) == 256 * Pow256(5) && Pow256(5) == 256 * Pow256(4);
    assert Pow256(8) == 256 * Pow256(7) && Pow256(7) == 256 * Pow256(6);
  }

  predicate FitsI64(t: int) { -I64 <= t < I64 }

  /** Nanoseconds as a 64-bit number, zero when they do not fit. */
  function TimestampNanos(t: int): int { if FitsI64(t) then t else 0 }

  function I64ToU64(t: int): u64
    requires FitsI64(t)
  {
    if t < 0 then t + U64 else t
  }

  function U64ToI64(n: u64): (t: int)
    ensures FitsI64(t) && I64ToU64(t) == n
  {
    if n >= I64 then n - U64 else n
  }

  // ---------------------------------------------------------------- encoding

  function EncodeBase(m: EventMeta): (b: seq<byte>)
    ensures |b| == ATTACHMENT_SIZE
  {
    ToBytes(m.seqNo, 8) + m.pubId + m.eventId + ToBytes(I64ToU64(TimestampNanos(m.timestamp)), 8) +
      ToBytes(m.urgencyMs, 2)
  }

  function Encode(m: EventMeta): (b: seq<byte>)
    requires m.hlcPhysicalNs.Some? <==> m.hlcLogical.Some?
  {
    if m.hlcPhysicalNs.Some? then
      EncodeBase(m) + ToBytes(m.hlcPhysicalNs.value, 8) + ToBytes(m.hlcLogical.value, 4)
    else EncodeBase(m)
  }

  // ---------------------------------------------------------------- layout

  /** Most significant byte first. */
  ghost predicate BigEndian(b: seq<byte>, n: nat) {
    forall i :: 0 <= i < |b| ==> b[i] == (n / Pow256(|b| - 1 - i)) % 256
  }

  lemma DivDiv(n: nat, p: nat)
    requires p > 0
    ensures n / 256 / p == n / (256 * p)
  {
    var q := n / (256 * p);
    var r := n - 256 * p * q;
    assert 0 <= r < 256 * p;
    assert n == 256 * (p * q) + r;
    assert n / 256 == p * q + r / 256 && 0 <= r / 256 < p;
    DivMod(p, q, r / 256);
  }

  lemma {:induction false} ToBytesIsBigEndian(n: nat, k: nat)
    ensures BigEndian(ToBytes(n, k), n)
  {
    if k > 0 {
      ToBytesIsBigEndian(n / 256, k - 1);
      forall i | 0 <= i < k ensures ToBytes(n, k)[i] == (n / Pow256(k - 1 - i)) % 256 {
        if i < k - 1 {
          DivDiv(n, Pow256(k - 2 - i));
          assert ToBytes(n, k)[i] == ToBytes(n / 256, k - 1)[i];
        } else {
          assert n / 1 == n;
        }
      }
    }
  }

  /** Where every field is in the first 50 bytes: sequence number, publisher, event, time as a 64-bit two's complement
      number or zero, and urgency. */
  ghost predicate BaseLayout(b: seq<byte>, pubId: Uuid, seqNo: u64, eventId: Uuid, timestamp: int, urgencyMs: u16) {
    && |b| >= 50 && BigEndian(b[0..8], seqNo) && b[8..24] == pubId && b[24..40] == eventId
    && BigEndian(b[40..48], (if -I64 <= timestamp < I64 then timestamp else 0) % U64)
    && BigEndian(b[48..50], urgencyMs)
  }

  lemma TwosComplement(t: int)
    ensures I64ToU64(TimestampNanos(t)) == (if -I64 <= t < I64 then t else 0) % U64
  {
  }

  lemma BaseIsLaidOut(m: EventMeta, b: seq<byte>)
    requires |b| >= 50 && b[..50] == EncodeBase(m)
    ensures BaseLayout(b, m.pubId, m.seqNo, m.eventId, m.timestamp, m.urgencyMs)
  {
    BaseSlices(m, b);
    ToBytesIsBigEndian(m.seqNo, 8);
    ToBytesIsBigEndian(I64ToU64(TimestampNanos(m.timestamp)), 8);
    TwosComplement(m.timestamp);
    ToBytesIsBigEndian(m.urgencyMs, 2);
  }

  // ---------------------------------------------------------------- filling a buffer

  method CopyInto(buf: array<byte>, offset: nat, src: seq<byte>)
    requires offset + |src| <= buf.Length
    modifies buf
    ensures buf[..] == old(buf[..offset]) + src + old(buf[offset + |src|..])
  {
    for i := 0 to |src|
      invariant forall k :: 0 <= k < buf.Length ==>
        buf[k] == if offset <= k < offset + i then src[k - offset] else old(buf[k])
    {
      buf[offset + i] := src[i];
    }
  }

  /** The base form, filled field by field. */
  method EncodeMetadata(pubId: Uuid, seqNo: u64, eventId: Uuid, timestamp: int, urgencyMs: u16) returns (b: seq<byte>)
    ensures b == Encode(EventMeta(seqNo, pubId, eventId, timestamp, urgencyMs, None, None))
    ensures |b| == 50 && BaseLayout(b, pubId, seqNo, eventId, timestamp, urgencyMs)
  {
    var buf := new byte[ATTACHMENT_SIZE](_ => 0);
    CopyInto(buf, 0, ToBytes(seqNo, 8));
    assert buf[..8] == ToBytes(seqNo, 8);
    CopyInto(buf, 8, pubId);
    assert buf[..24] == ToBytes(seqNo, 8) + pubId;
    CopyInto(buf, 24, eventId);
    assert buf[..40] == ToBytes(seqNo, 8) + pubId + eventId;
    CopyInto(buf, 40, ToBytes(I64ToU64(TimestampNanos(timestamp)), 8));
    assert buf[..48] == ToBytes(seqNo, 8) + pubId + eventId + ToBytes(I64ToU64(TimestampNanos(timestamp)), 8);
    CopyInto(buf, 48, ToBytes(urgencyMs, 2));
    b := buf[..];
    assert b[..50] == b;
    BaseIsLaidOut(EventMeta(seqNo, pubId, eventId, timestamp, urgencyMs, None, None), b);
  }

  /** The extended form. */
  method EncodeMetadataWithHlc(pubId: Uuid, seqNo: u64, eventId: Uuid, timestamp: int, urgencyMs: u16,
                               hlcPhysicalNs: u64, hlcLogical: u32) returns (b: seq<byte>)
    ensures b == Encode(EventMeta(seqNo, pubId, eventId, timestamp, urgencyMs, Some(hlcPhysicalNs), Some(hlcLogical)))
    ensures |b| == 62 && BaseLayout(b, pubId, seqNo, eventId, timestamp, urgencyMs)
    ensures BigEndian(b[50..58], hlcPhysicalNs) && BigEndian(b[58..62], hlcLogical)
  {
    var buf := new byte[EXTENDED_ATTACHMENT_SIZE](_ => 0);
    var t := ToBytes(I64ToU64(TimestampNanos(timestamp)), 8);
    CopyInto(buf, 0, ToBytes(seqNo, 8));
    assert buf[..8] == ToBytes(seqNo, 8);
    CopyInto(buf, 8, pubId);
    assert buf[..24] == ToBytes(seqNo, 8) + pubId;
    CopyInto(buf, 24, eventId);
    assert buf[..40] == ToBytes(seqNo, 8) + pubId + eventId;
    CopyInto(buf, 40, t);
    assert buf[..48] == ToBytes(seqNo, 8) + pubId + eventId + t;
    CopyInto(buf, 48, ToBytes(urgencyMs, 2));
    assert buf[..50] == ToBytes(seqNo, 8) + pubId + eventId + t + ToBytes(urgencyMs, 2);
    CopyInto(buf, 50, ToBytes(hlcPhysicalNs, 8));
    assert buf[..58] == ToBytes(seqNo, 8) + pubId + eventId + t + ToBytes(urgencyMs, 2) + ToBytes(hlcPhysicalNs, 8);
    CopyInto(buf, 58, ToBytes(hlcLogical, 4));
    b := buf[..];
    ExtendedIsLaidOut(EventMeta(seqNo, pubId, eventId, timestamp, urgencyMs, None, None), b, hlcPhysicalNs, hlcLogical);
  }

  // ---------------------------------------------------------------- decoding

  function ReadU64(b: seq<byte>, offset: nat): u64
    requires offset + 8 <= |b|
  {
    var slice := b[offset..offset + 8];
    ToFromBytes(slice);
    Widths();
    FromBytes(slice)
  }

  function ReadU32(b: seq<byte>, offset: nat): u32
    requires offset + 4 <= |b|
  {
    var slice := b[offset..offset + 4];
    ToFromBytes(slice);
    Widths();
    FromBytes(slice)
  }

  function ReadU16(b: seq<byte>, offset: nat): u16
    requires offset + 2 <= |b|
  {
    var slice := b[offset..offset + 2];
    ToFromBytes(slice);
    Widths();
    FromBytes(slice)
  }

  function Decode(b: seq<byte>): Result<EventMeta, string> {
    if |b| != ATTACHMENT_SIZE && |b| != EXTENDED_ATTACHMENT_SIZE then Err("invalid attachment length")
    else
      var extended := |b| == EXTENDED_ATTACHMENT_SIZE;
      Ok(EventMeta(ReadU64(b, 0), b[8..24], b[24..40], U64ToI64(ReadU64(b, 40)), ReadU16(b, 48),
                   if extended then Some(ReadU64(b, 50)) else None,
                   if extended then Some(ReadU32(b, 58)) else None))
  }

  // ---------------------------------------------------------------- round trips

  lemma BaseSlices(m: EventMeta, b: seq<byte>)
    requires |b| >= 50 && b[..50] == EncodeBase(m)
    ensures b[0..8] == ToBytes(m.seqNo, 8) && b[8..24] == m.pubId && b[24..40] == m.eventId
    ensures b[40..48] == ToBytes(I64ToU64(TimestampNanos(m.timestamp)), 8) && b[48..50] == ToBytes(m.urgencyMs, 2)
  {
    var e := b[..50];
    assert b[0..8] == e[0..8] && b[8..24] == e[8..24] && b[24..40] == e[24..40] &&
      b[40..48] == e[40..48] && b[48..50] == e[48..50];
  }

  lemma BaseReads(m: EventMeta, b: seq<byte>)
    requires |b| >= 50 && b[..50] == EncodeBase(m)
    ensures ReadU64(b, 0) == m.seqNo && b[8..24] == m.pubId && b[24..40] == m.eventId
    ensures U64ToI64(ReadU64(b, 40)) == TimestampNanos(m.timestamp) && ReadU16(b, 48) == m.urgencyMs
  {
    BaseSlices(m, b);
    Widths();
    FromToBytes(m.seqNo, 8);
    FromToBytes(I64ToU64(TimestampNanos(m.timestamp)), 8);
    FromToBytes(m.urgencyMs, 2);
  }

  lemma ClockReads(base: seq<byte>, physical: u64, logical: u32)
    requires |base| == 50
    ensures var b := base + ToBytes(physical, 8) + ToBytes(logical, 4);
      b[..50] == base && ReadU64(b, 50) == physical && ReadU32(b, 58) == logical
  {
    var b := base + ToBytes(physical, 8) + ToBytes(logical, 4);
    assert b[50..58] == ToBytes(physical, 8) && b[58..62] == ToBytes(logical, 4);
    Widths();
    FromToBytes(physical, 8);
    FromToBytes(logical, 4);
  }

  lemma ExtendedIsLaidOut(m: EventMeta, b: seq<byte>, physical: u64, logical: u32)
    requires b == EncodeBase(m) + ToBytes(physical, 8) + ToBytes(logical, 4)
    ensures |b| == 62 && BaseLayout(b, m.pubId, m.seqNo, m.eventId, m.timestamp, m.urgencyMs)
    ensures BigEndian(b[50..58], physical) && BigEndian(b[58..62], logical)
  {
    assert b[..50] == EncodeBase(m) && b[50..58] == ToBytes(physical, 8) && b[58..62] == ToBytes(logical, 4);
    BaseIsLaidOut(m, b);
    ToBytesIsBigEndian(physical, 8);
    ToBytesIsBigEndian(logical, 4);
  }

  /** Decoding what was encoded gives every field back, except that a timestamp outside 64 bits of
      nanoseconds comes back as zero; so metadata survives if and only if its timestamp fits. */
  lemma DecodeEncode(m: EventMeta)
    requires m.hlcPhysicalNs.Some? <==> m.hlcLogical.Some?
    ensures Decode(Encode(m)) == Ok(m.(timestamp := if -I64 <= m.timestamp < I64 then m.timestamp else 0))
    ensures Decode(Encode(m)) == Ok(m) <==> FitsI64(m.timestamp)
  {
    var b := Encode(m);
    if m.hlcPhysicalNs.Some? {
      ClockReads(EncodeBase(m), m.hlcPhysicalNs.value, m.hlcLogical.value);
    } else {
      assert b[..50] == EncodeBase(m);
    }
    BaseReads(m, b);
  }

  /** Every 50 or 62 bytes decode, nothing else does, and encoding the result gives the same bytes. */
  lemma EncodeDecode(b: seq<byte>)
    ensures Decode(b).Ok? <==> |b| == 50 || |b| == 62
    ensures Decode(b).Ok? ==>
      var m := Decode(b).value;
      && (m.hlcPhysicalNs.Some? <==> m.hlcLogical.Some?) && FitsI64(m.timestamp)
      && Encode(m) == b
  {
    if Decode(b).Ok? {
      BaseOfDecoded(b);
      if |b| == 62 {
        ToFromBytes(b[50..58]);
        ToFromBytes(b[58..62]);
        assert b == b[..50] + b[50..58] + b[58..62];
      } else {
        assert b == b[..50];
      }
    }
  }

  lemma BaseOfDecoded(b: seq<byte>)
    requires Decode(b).Ok?
    ensures EncodeBase(Decode(b).value) == b[..50]
  {
    var m := Decode(b).value;
    assert ToBytes(m.seqNo, 8) == b[0..8] by { ToFromBytes(b[0..8]); }
    assert ToBytes(I64ToU64(TimestampNanos(m.timestamp)), 8) == b[40..48] by { ToFromBytes(b[40..48]); }
    assert ToBytes(m.urgencyMs, 2) == b[48..50] by { ToFromBytes(b[48..50]); }
    assert b[..50] == b[0..8] + b[8..24] + b[24..40] + b[40..48] + b[48..50];
  }
}
