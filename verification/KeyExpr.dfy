/** Key expressions: building and taking apart `{prefix}/p/{partition}/k/{key}/{seq}`. */
module KeyExpr {
  import opened Lists
  import opened Numbers
  import opened Wrappers

  // ---------------------------------------------------------------- searching

  predicate IsAt(s: string, pat: string, i: nat) {
    i + |pat| <= |s| && s[i..i + |pat|] == pat
  }

  function FindFrom(s: string, pat: string, i: nat): (r: Option<nat>)
    requires i <= |s|
    ensures r.Some? ==> i <= r.value && IsAt(s, pat, r.value) && forall j :: i <= j < r.value ==> !IsAt(s, pat, j)
    ensures r.None? ==> forall j :: i <= j ==> !IsAt(s, pat, j)
    decreases |s| - i
  {
    if IsAt(s, pat, i) then Some(i)
    else if i == |s| then None
    else FindFrom(s, pat, i + 1)
  }

  /** The first occurrence of `pat`. */
  function Find(s: string, pat: string): (r: Option<nat>)
    ensures r.Some? ==> IsAt(s, pat, r.value) && forall j :: 0 <= j < r.value ==> !IsAt(s, pat, j)
    ensures r.None? ==> forall j :: 0 <= j ==> !IsAt(s, pat, j)
  {
    FindFrom(s, pat, 0)
  }

  /** The last slash. */
  function LastSlash(s: string): (r: Option<nat>)
    ensures r.Some? ==> r.value < |s| && s[r.value] == '/' && '/' !in s[r.value + 1..]
    ensures r.None? ==> '/' !in s
  {
    if s == "" then None
    else if s[|s| - 1] == '/' then Some(|s| - 1)
    else
      var front := s[..|s| - 1];
      var r := LastSlash(front);
      assert s == front + [s[|s| - 1]];
      assert r.Some? ==> s[r.value + 1..] == front[r.value + 1..] + [s[|s| - 1]];
      r
  }

  // ---------------------------------------------------------------- numbers

  predicate IsDigit(c: char) { '0' <= c <= '9' }

  function DigitValue(c: char): nat
    requires IsDigit(c)
  {
    c as nat - '0' as nat
  }

  predicate AllDigits(s: string) { forall i :: 0 <= i < |s| ==> IsDigit(s[i]) }

  function Value(s: string): nat
    requires AllDigits(s)
  {
    if s == "" then 0 else 10 * Value(s[..|s| - 1]) + DigitValue(s[|s| - 1])
  }

  /** A sign is allowed, an empty number is not, and neither is one of more than 32 bits. */
  function ParseU32(s: string): Option<nat> {
    var digits := if |s| > 1 && s[0] == '+' then s[1..] else s;
    if digits != "" && AllDigits(digits) && Value(digits) < U32 then Some(Value(digits)) else None
  }

  function Decimal(n: nat): (s: string)
    ensures s != "" && AllDigits(s)
  {
    var last := [('0' as nat + n % 10) as char];
    if n < 10 then last else Decimal(n / 10) + last
  }

  lemma {:induction false} ValueOfDecimal(n: nat)
    ensures Value(Decimal(n)) == n
  {
    var s := Decimal(n);
    if n < 10 {
      assert s[..0] == "";
    } else {
      ValueOfDecimal(n / 10);
      assert s[..|s| - 1] == Decimal(n / 10);
    }
  }

  /** Without leading zeros. */
  lemma {:induction false} DecimalIsShort(n: nat)
    ensures Decimal(0) == "0" && (n > 0 ==> Decimal(n)[0] != '0')
  {
    if n >= 10 {
      DecimalIsShort(n / 10);
      assert Decimal(n)[0] == Decimal(n / 10)[0];
    }
  }

  lemma ParseDecimal(n: nat)
    ensures ParseU32(Decimal(n)) == if n < U32 then Some(n) else None
  {
    ValueOfDecimal(n);
    assert IsDigit(Decimal(n)[0]);
  }

  // ---------------------------------------------------------------- taking keys apart

  function OrZero(r: Option<nat>): nat { if r.Some? then r.value else 0 }

  function ExtractPartition(key: string): nat {
    match Find(key, "/p/")
    case None => 0
    case Some(i) =>
      var rest := key[i + 3..];
      match Find(rest, "/")
      case Some(end) => OrZero(ParseU32(rest[..end]))
      case None => OrZero(ParseU32(rest))
  }

  function ExtractKey(key: string): Option<string> {
    match Find(key, "/k/")
    case None => None
    case Some(i) =>
      var after := key[i + 3..];
      match LastSlash(after)
      case None => None
      case Some(last) => if last == 0 then None else Some(after[..last])
  }

  function ValidateKey(key: string): Result<(), string> {
    if key == "" then Err("key must not be empty")
    else if '*' in key || '$' in key then Err("key must not contain * or $")
    else Ok(())
  }

  // ---------------------------------------------------------------- layouts

  function Unkeyed(prefix: string, partition: nat, seqNo: nat): string {
    prefix + "/p/" + Decimal(partition) + "/" + Decimal(seqNo)
  }

  function Keyed(prefix: string, partition: nat, key: string, seqNo: nat): string {
    prefix + "/p/" + Decimal(partition) + "/k/" + key + "/" + Decimal(seqNo)
  }

  /** `pat` neither occurs in the prefix nor is completed by the slash that follows it. */
  predicate Clean(prefix: string, pat: string) {
    Find(prefix + "/", pat) == None
  }

  /** Patterns of the form slash, letter, slash. */
  predicate Marker(pat: string) {
    |pat| == 3 && pat[0] == '/' && pat[2] == '/' && pat[1] != '/' && !IsDigit(pat[1])
  }

  lemma FindIs(s: string, pat: string, i: nat)
    requires IsAt(s, pat, i) && forall j :: 0 <= j < i ==> !IsAt(s, pat, j)
    ensures Find(s, pat) == Some(i)
  {}

  lemma AtMarker(s: string, pat: string, i: nat)
    requires Marker(pat)
    ensures IsAt(s, pat, i) <==> i + 3 <= |s| && s[i] == '/' && s[i + 1] == pat[1] && s[i + 2] == '/'
  {
    if i + 3 <= |s| {
      var w := s[i..i + 3];
      assert w[0] == s[i] && w[1] == s[i + 1] && w[2] == s[i + 2];
    }
  }

  lemma AtSlash(s: string, i: nat)
    ensures IsAt(s, "/", i) <==> i < |s| && s[i] == '/'
  {
    if i < |s| { assert s[i..i + 1] == [s[i]]; }
  }

  /** What comes before a slash decides whether a marker starts there. */
  lemma MarkerInPrefix(prefix: string, s: string, pat: string, i: nat)
    requires Marker(pat) && i < |prefix| < |s| && s[..|prefix|] == prefix && s[|prefix|] == '/'
    ensures IsAt(s, pat, i) <==> IsAt(prefix + "/", pat, i)
  {
    var t := prefix + "/";
    AtMarker(s, pat, i);
    AtMarker(t, pat, i);
    assert forall k :: 0 <= k < |t| ==> s[k] == t[k] by {
      assert forall k :: 0 <= k < |prefix| ==> s[k] == s[..|prefix|][k];
    }
  }

  lemma CleanNoMarker(prefix: string, s: string, pat: string)
    requires Marker(pat) && Clean(prefix, pat)
    requires |prefix| < |s| && s[..|prefix|] == prefix && s[|prefix|] == '/'
    ensures forall j :: 0 <= j < |prefix| ==> !IsAt(s, pat, j)
  {
    forall j | 0 <= j < |prefix| ensures !IsAt(s, pat, j) { MarkerInPrefix(prefix, s, pat, j); }
  }

  /** An unclean prefix has its marker found at a place that depends on the prefix alone. */
  lemma UncleanMarker(prefix: string, s: string, pat: string) returns (i: nat)
    requires Marker(pat) && !Clean(prefix, pat)
    requires |prefix| < |s| && s[..|prefix|] == prefix && s[|prefix|] == '/'
    ensures i + 2 <= |prefix| && Find(prefix + "/", pat) == Some(i)
    ensures Find(s, pat) == Some(i)
  {
    i := Find(prefix + "/", pat).value;
    forall j | 0 <= j < |prefix| ensures IsAt(s, pat, j) <==> IsAt(prefix + "/", pat, j) {
      MarkerInPrefix(prefix, s, pat, j);
    }
    FindIs(s, pat, i);
  }

  // ---------------------------------------------------------------- partitions

  lemma SegmentEnd(segment: string, rest: string)
    requires '/' !in segment
    ensures Find(segment + "/" + rest, "/") == Some(|segment|)
  {
    var s := segment + "/" + rest;
    forall j | 0 <= j <= |segment| ensures IsAt(s, "/", j) <==> j == |segment| {
      AtSlash(s, j);
      assert j < |segment| ==> s[j] == segment[j] && segment[j] in segment;
    }
    FindIs(s, "/", |segment|);
  }

  lemma DigitsHaveNoSlash(s: string)
    requires AllDigits(s)
    ensures '/' !in s
  {}

  /** The partition is read from the segment after the marker. */
  lemma PartitionSegment(s: string, i: nat, segment: string, rest: string)
    requires Find(s, "/p/") == Some(i) && s[i + 3..] == segment + "/" + rest && '/' !in segment
    ensures ExtractPartition(s) == OrZero(ParseU32(segment))
  {
    SegmentEnd(segment, rest);
    assert (segment + "/" + rest)[..|segment|] == segment;
  }

  lemma CleanPartitionMarker(prefix: string, rest: string)
    requires Clean(prefix, "/p/")
    ensures Find(prefix + "/p/" + rest, "/p/") == Some(|prefix|)
  {
    var s := prefix + "/p/" + rest;
    assert s[..|prefix|] == prefix;
    CleanNoMarker(prefix, s, "/p/");
    AtMarker(s, "/p/", |prefix|);
    FindIs(s, "/p/", |prefix|);
  }

  /** Any expression in a partition: `tail` may be a sequence number or a keyed rest. */
  function InPartition(prefix: string, partition: nat, tail: string): string {
    prefix + "/p/" + (Decimal(partition) + "/" + tail)
  }

  lemma CleanPartition(prefix: string, partition: nat, tail: string)
    requires Clean(prefix, "/p/") && partition < U32
    ensures ExtractPartition(InPartition(prefix, partition, tail)) == partition
  {
    var d := Decimal(partition);
    var rest := d + "/" + tail;
    CleanPartitionMarker(prefix, rest);
    assert (prefix + "/p/" + rest)[|prefix| + 3..] == rest;
    DigitsHaveNoSlash(d);
    PartitionSegment(prefix + "/p/" + rest, |prefix|, d, tail);
    ParseDecimal(partition);
  }

  /** The segment up to the next slash, or the end. */
  function Segment(s: string): string {
    if s == "" || s[0] == '/' then "" else [s[0]] + Segment(s[1..])
  }

  lemma {:induction false} SegmentSplits(middle: string, rest: string) returns (after: string)
    ensures '/' !in Segment(middle) && middle + "/" + rest == Segment(middle) + "/" + after
  {
    if middle == "" {
      after := rest;
    } else if middle[0] == '/' {
      after := middle[1..] + "/" + rest;
    } else {
      after := SegmentSplits(middle[1..], rest);
      assert middle == [middle[0]] + middle[1..];
      assert middle + "/" + rest == [middle[0]] + (middle[1..] + "/" + rest);
    }
  }

  /** What an unclean prefix, with its marker at `i`, makes of every partition. */
  function FixedPartition(prefix: string, i: nat): nat {
    if i + 3 <= |prefix| then OrZero(ParseU32(Segment(prefix[i + 3..]))) else 0
  }

  lemma UncleanPartition(prefix: string, rest: string, i: nat)
    requires !Clean(prefix, "/p/") && Find(prefix + "/", "/p/") == Some(i)
    ensures ExtractPartition(prefix + "/p/" + rest) == FixedPartition(prefix, i)
  {
    var s := prefix + "/p/" + rest;
    assert s[..|prefix|] == prefix;
    var i' := UncleanMarker(prefix, s, "/p/");
    if i + 3 <= |prefix| {
      var after := SegmentSplits(prefix[i + 3..], "p/" + rest);
      assert s == prefix + ("/" + ("p/" + rest));
      DropConcat(prefix, "/" + ("p/" + rest), i + 3);
      assert prefix[i + 3..] + ("/" + ("p/" + rest)) == prefix[i + 3..] + "/" + ("p/" + rest);
      PartitionSegment(s, i, Segment(prefix[i + 3..]), after);
    } else {
      assert s[i + 3..] == "p" + "/" + rest;
      PartitionSegment(s, i, "p", rest);
      assert !IsDigit("p"[0]);
    }
  }

  /** The partition is recovered for every partition and whatever follows, if and only if the prefix is
      clean of the marker. */
  lemma PartitionRoundTrip(prefix: string)
    ensures Clean(prefix, "/p/") <==>
      forall partition: nat, tail :: partition < U32 ==>
        ExtractPartition(InPartition(prefix, partition, tail)) == partition
  {
    if Clean(prefix, "/p/") {
      forall partition: nat, tail | partition < U32
        ensures ExtractPartition(InPartition(prefix, partition, tail)) == partition
      {
        CleanPartition(prefix, partition, tail);
      }
    } else {
      var i := Find(prefix + "/", "/p/").value;
      var bad: nat := if FixedPartition(prefix, i) == 1 then 2 else 1;
      UncleanPartition(prefix, Decimal(bad) + "/" + "", i);
      assert ExtractPartition(InPartition(prefix, bad, "")) != bad;
    }
  }

  // ---------------------------------------------------------------- keys

  lemma {:induction false} LastSlashIs(a: string, b: string)
    requires '/' !in b
    ensures LastSlash(a + "/" + b) == Some(|a|)
  {
    var s := a + "/" + b;
    if b == "" {
      assert s[|s| - 1] == '/';
    } else {
      assert b[|b| - 1] in b && s[|s| - 1] == b[|b| - 1] != '/';
      LastSlashIs(a, b[..|b| - 1]);
      assert s[..|s| - 1] == a + "/" + b[..|b| - 1];
    }
  }

  /** The key is what lies between the key marker and the last slash. */
  lemma KeySegment(s: string, i: nat, key: string, digits: string)
    requires Find(s, "/k/") == Some(i) && s[i + 3..] == key + "/" + digits && AllDigits(digits)
    ensures ExtractKey(s) == if key == "" then None else Some(key)
  {
    DigitsHaveNoSlash(digits);
    LastSlashIs(key, digits);
    assert (key + "/" + digits)[..|key|] == key;
  }

  /** There is no key marker in the prefix, the partition marker or the partition. */
  lemma NoKeyMarkerBefore(prefix: string, digits: string, rest: string)
    requires Clean(prefix, "/k/") && AllDigits(digits) && digits != ""
    ensures forall j :: 0 <= j < |prefix| + 3 + |digits| ==> !IsAt(prefix + "/p/" + digits + rest, "/k/", j)
  {
    var s := prefix + "/p/" + digits + rest;
    assert s[..|prefix|] == prefix;
    CleanNoMarker(prefix, s, "/k/");
    var n := |prefix|;
    assert s[n] == '/' && s[n + 1] == 'p' && s[n + 2] == '/';
    assert forall k :: n + 3 <= k < n + 3 + |digits| ==> s[k] == digits[k - n - 3] && IsDigit(digits[k - n - 3]);
    forall j | n <= j < n + 3 + |digits| ensures !IsAt(s, "/k/", j) { AtMarker(s, "/k/", j); }
  }

  lemma CleanKeyMarker(prefix: string, digits: string, rest: string)
    requires Clean(prefix, "/k/") && AllDigits(digits) && digits != ""
    ensures Find(prefix + "/p/" + digits + ("/k/" + rest), "/k/") == Some(|prefix| + 3 + |digits|)
  {
    var s, n := prefix + "/p/" + digits + ("/k/" + rest), |prefix| + 3 + |digits|;
    NoKeyMarkerBefore(prefix, digits, "/k/" + rest);
    assert s[n] == '/' && s[n + 1] == 'k' && s[n + 2] == '/';
    AtMarker(s, "/k/", n);
    FindIs(s, "/k/", n);
  }

  lemma KeyedSplit(prefix: string, partition: nat, key: string, seqNo: nat)
    ensures Keyed(prefix, partition, key, seqNo) ==
      prefix + "/p/" + Decimal(partition) + ("/k/" + (key + "/" + Decimal(seqNo)))
  {
    var front, q := prefix + "/p/" + Decimal(partition), Decimal(seqNo);
    assert front + "/k/" + key + "/" + q == front + ("/k/" + (key + "/" + q));
  }

  lemma AfterMarker(front: string, rest: string)
    ensures (front + ("/k/" + rest))[|front| + 3..] == rest
  {}

  lemma CleanKey(prefix: string, partition: nat, key: string, seqNo: nat)
    requires Clean(prefix, "/k/")
    ensures ExtractKey(Keyed(prefix, partition, key, seqNo)) == if key == "" then None else Some(key)
  {
    KeyedSplit(prefix, partition, key, seqNo);
    CleanKeyMarker(prefix, Decimal(partition), key + "/" + Decimal(seqNo));
    AfterMarker(prefix + "/p/" + Decimal(partition), key + "/" + Decimal(seqNo));
    KeySegment(Keyed(prefix, partition, key, seqNo), |prefix| + 3 + |Decimal(partition)|, key, Decimal(seqNo));
  }

  /** With an unclean prefix something longer than any key comes out. */
  lemma UncleanKey(prefix: string, body: string, seqNo: nat)
    requires !Clean(prefix, "/k/")
    ensures var r := ExtractKey(prefix + "/p/" + body + "/" + Decimal(seqNo)); r.Some? && |r.value| > |body|
  {
    var front, q := prefix + "/p/" + body, Decimal(seqNo);
    var s := front + "/" + q;
    assert s[..|prefix|] == prefix && s[|prefix|] == '/';
    var i := UncleanMarker(prefix, s, "/k/");
    assert s == front + ("/" + q);
    DropConcat(front, "/" + q, i + 3);
    assert front[i + 3..] + ("/" + q) == front[i + 3..] + "/" + q;
    KeySegment(s, i, front[i + 3..], q);
  }

  /** The key is recovered, even one that contains markers, if and only if it is not empty and the prefix
      is clean of the key marker. */
  lemma KeyRoundTrip(prefix: string, partition: nat, key: string, seqNo: nat)
    ensures ExtractKey(Keyed(prefix, partition, key, seqNo)) == Some(key) <==> Clean(prefix, "/k/") && key != ""
  {
    if Clean(prefix, "/k/") {
      CleanKey(prefix, partition, key, seqNo);
    } else {
      var body := Decimal(partition) + "/k/" + key;
      UncleanKey(prefix, body, seqNo);
      KeyedBody(prefix, partition, key, seqNo);
    }
  }

  lemma KeyedBody(prefix: string, partition: nat, key: string, seqNo: nat)
    ensures Keyed(prefix, partition, key, seqNo) ==
      prefix + "/p/" + (Decimal(partition) + "/k/" + key) + "/" + Decimal(seqNo)
  {
    var d := Decimal(partition);
    assert prefix + "/p/" + (d + "/k/" + key) == prefix + "/p/" + d + "/k/" + key;
  }

  /** An unkeyed expression yields no key, if and only if its prefix is clean of the key marker. */
  lemma UnkeyedHasNoKey(prefix: string, partition: nat, seqNo: nat)
    ensures ExtractKey(Unkeyed(prefix, partition, seqNo)) == None <==> Clean(prefix, "/k/")
  {
    var d, q := Decimal(partition), Decimal(seqNo);
    if Clean(prefix, "/k/") {
      var s, n := prefix + "/p/" + d + ("/" + q), |prefix| + 3 + |d|;
      assert Unkeyed(prefix, partition, seqNo) == s;
      NoKeyMarkerBefore(prefix, d, "/" + q);
      assert forall k :: n < k < |s| ==> s[k] == q[k - n - 1] && IsDigit(q[k - n - 1]);
      forall j | 0 <= j ensures !IsAt(s, "/k/", j) { AtMarker(s, "/k/", j); }
      assert Find(s, "/k/").None?;
    } else {
      UncleanKey(prefix, d, seqNo);
    }
  }

  lemma LayoutsAreInPartition(prefix: string, partition: nat, key: string, seqNo: nat)
    ensures Unkeyed(prefix, partition, seqNo) == InPartition(prefix, partition, Decimal(seqNo))
    ensures Keyed(prefix, partition, key, seqNo) == InPartition(prefix, partition, "k/" + key + "/" + Decimal(seqNo))
  {
    var front, d, q := prefix + "/p/", Decimal(partition), Decimal(seqNo);
    assert front + d + "/" + q == front + (d + "/" + q);
    assert front + d + "/k/" + key + "/" + q == front + (d + "/" + ("k/" + key + "/" + q));
  }

  /** Whatever key passes validation can be published under a clean prefix and read back with its
      partition. */
  lemma PublishedKeyReadsBack(prefix: string, partition: nat, key: string, seqNo: nat)
    requires Clean(prefix, "/p/") && Clean(prefix, "/k/") && partition < U32 && ValidateKey(key).Ok?
    ensures ExtractPartition(Keyed(prefix, partition, key, seqNo)) == partition
    ensures ExtractKey(Keyed(prefix, partition, key, seqNo)) == Some(key)
    ensures ExtractPartition(Unkeyed(prefix, partition, seqNo)) == partition
  {
    LayoutsAreInPartition(prefix, partition, key, seqNo);
    CleanPartition(prefix, partition, "k/" + key + "/" + Decimal(seqNo));
    CleanPartition(prefix, partition, Decimal(seqNo));
    KeyRoundTrip(prefix, partition, key, seqNo);
  }
  /** Under a prefix without wildcards, exactly the keys pass validation that are not empty and whose expressions have
      none either. */
  lemma ValidIffNoWildcard(prefix: string, partition: nat, key: string, seqNo: nat)
    requires '*' !in prefix && '$' !in prefix
    ensures ValidateKey(key).Ok? <==>
      key != "" && '*' !in Keyed(prefix, partition, key, seqNo) && '$' !in Keyed(prefix, partition, key, seqNo)
  {
    var d, q := Decimal(partition), Decimal(seqNo);
    assert forall c :: c in d || c in q ==> IsDigit(c);
    assert forall c :: c in Keyed(prefix, partition, key, seqNo) <==>
      c in prefix || c in "/p/" || c in d || c in "/k/" || c in key || c in "/" || c in q;
  }

  /** Any string: the partition is 0 without the marker; otherwise it is the number that follows the first one, up to
      the next slash or the end, and 0 if that is not a number of 32 bits. */
  lemma NoPartition(key: string)
    requires forall j :: 0 <= j ==> !IsAt(key, "/p/", j)
    ensures ExtractPartition(key) == 0
  {
  }

  lemma PartitionOfAny(key: string, i: nat, segment: string)
    requires IsAt(key, "/p/", i) && (forall j :: 0 <= j < i ==> !IsAt(key, "/p/", j)) && '/' !in segment
    requires key[i + 3..] == segment || segment + "/" <= key[i + 3..]
    ensures ExtractPartition(key) == if ParseU32(segment).Some? then ParseU32(segment).value else 0
  {
    FindIs(key, "/p/", i);
    var rest := key[i + 3..];
    if rest == segment {
      forall j | 0 <= j ensures !IsAt(rest, "/", j) { AtSlash(rest, j); }
    } else {
      var tail := rest[|segment| + 1..];
      assert rest == segment + "/" + tail;
      PartitionSegment(key, i, segment, tail);
    }
  }

  /** A number is a string of digits, with a plus sign in front or not, whose value fits 32 bits. */
  lemma ParseU32Meaning(s: string, n: nat)
    ensures ParseU32(s) == Some(n) <==>
      n < U32 && exists digits ::
        (s == digits || s == "+" + digits) && digits != "" && AllDigits(digits) && Value(digits) == n
  {
    if |s| > 1 && s[0] == '+' {
      assert s == "+" + s[1..] && !IsDigit(s[0]);
    }
    forall digits | (s == digits || s == "+" + digits) && digits != "" && AllDigits(digits)
      ensures ParseU32(s) == if Value(digits) < U32 then Some(Value(digits)) else None
    {
      if s == "+" + digits { assert s[1..] == digits; } else { assert IsDigit(s[0]); }
    }
  }
}
