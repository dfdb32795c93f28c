/** Queue keys: a queue's tasks live under byte strings whose lexicographic order is the
    order in which the queue must serve them (queue.go, lines 78-150 and 388-462). */
module QueueKey {
  import opened Bytes

  const TWO63: int := 0x8000_0000_0000_0000
  const TWO64: int := 0x1_0000_0000_0000_0000

  type Int64 = x: int | -0x8000_0000_0000_0000 <= x < 0x8000_0000_0000_0000
  type Uint64 = x: int | 0 <= x < 0x1_0000_0000_0000_0000

  /** Go's conversions between `int64` and `uint64`: the same 64 bits, read differently. */
  function AsUint64(v: Int64): (u: Uint64)
    ensures u == if v < 0 then v + TWO64 else v
  {
    v % TWO64
  }

  function AsInt64(u: Uint64): Int64 { if u < TWO63 then u else u - TWO64 }

  function EncodeU64BE(v: Uint64): (r: ByteString)
    ensures |r| == 8
  {
    PowWidths();
    ToBE(v, 8)
  }

  function DecodeU64BE(b: ByteString): Uint64
    requires |b| == 8
  {
    PowWidths();
    FromBE(b)
  }

  /** The offset added before a signed number is stored: a wrapping addition that flips the sign bit,
      so that negative numbers come first. */
  function Bias(v: Int64): (u: Uint64)
    ensures u == v + TWO63
  {
    (AsUint64(v) + TWO63) % TWO64
  }

  function Unbias(u: Uint64): (v: Int64)
    ensures v == u - TWO63
  {
    AsInt64((u - TWO63) % TWO64)
  }

  function EncodeI64BE(v: Int64): (r: ByteString)
    ensures |r| == 8
  {
    EncodeU64BE(Bias(v))
  }

  function DecodeI64BE(b: ByteString): Int64
    requires |b| == 8
  {
    Unbias(DecodeU64BE(b))
  }

  lemma U64RoundTrip(v: Uint64, b: ByteString)
    requires |b| == 8
    ensures DecodeU64BE(EncodeU64BE(v)) == v
    ensures EncodeU64BE(DecodeU64BE(b)) == b
  {
    PowWidths();
    FromToBE(v, 8);
    ToFromBE(b);
  }

  lemma I64RoundTrip(v: Int64, b: ByteString)
    requires |b| == 8
    ensures DecodeI64BE(EncodeI64BE(v)) == v
    ensures EncodeI64BE(DecodeI64BE(b)) == b
  {
    U64RoundTrip(Bias(v), b);
    assert Bias(DecodeI64BE(b)) == DecodeU64BE(b);
  }

  lemma U64Order(v: Uint64, w: Uint64)
    ensures Less(EncodeU64BE(v), EncodeU64BE(w)) <==> v < w
    ensures EncodeU64BE(v) == EncodeU64BE(w) <==> v == w
  {
    PowWidths();
    BigEndianOrder(v, w, 8);
  }

  /** Signed order becomes byte order, over all of int64. */
  lemma I64Order(v: Int64, w: Int64)
    ensures Less(EncodeI64BE(v), EncodeI64BE(w)) <==> v < w
    ensures EncodeI64BE(v) == EncodeI64BE(w) <==> v == w
  {
    U64Order(Bias(v), Bias(w));
  }

  // ---------------------------------------------------------------- keys

  datatype Key = Key(queueID: ByteString, priority: Int64, readyTs: Int64, sequence: Uint64, taskID: ByteString)

  const QUEUE: ByteString := [0x71, 0x75, 0x65, 0x75, 0x65, 0x2F]  // "queue/"
  const SEP: ByteString := [SLASH]

  /** What every scan of queue `name` asks the store for. */
  function Prefix(name: ByteString): ByteString { QUEUE + name + SEP }

  /** The part of a key that follows its queue's prefix. */
  function Rest(k: Key): ByteString { EncodeI64BE(k.priority) + (SEP + TimeAndBelow(k)) }

  function TimeAndBelow(k: Key): ByteString {
    EncodeU64BE(AsUint64(k.readyTs)) + (SEP + (EncodeU64BE(k.sequence) + (SEP + k.taskID)))
  }

  function KeyBytes(k: Key): ByteString { Prefix(k.queueID) + Rest(k) }

  predicate SlashFree(name: ByteString) { SLASH !in name }

  /** The keys that can be told apart after encoding: slash-free queue names, non-empty task ids. */
  predicate Canonical(k: Key) { SlashFree(k.queueID) && k.taskID != [] }

  /** The order the queue promises: priority, then time, then sequence, then task id. */
  predicate Before(a: Key, b: Key) {
    || a.priority < b.priority
    || (a.priority == b.priority && (
          || a.readyTs < b.readyTs
          || (a.readyTs == b.readyTs && (
                || a.sequence < b.sequence
                || (a.sequence == b.sequence && Less(a.taskID, b.taskID))))))
  }

  /** A separator between equal-length fields changes nothing. */
  lemma FieldOrder(a: ByteString, b: ByteString, x: ByteString, y: ByteString)
    requires |a| == |b|
    ensures Less(a + (SEP + x), b + (SEP + y)) <==> Less(a, b) || (a == b && Less(x, y))
  {
    LessIrreflexive(SEP);
    LessConcat(SEP, SEP, x, y);
    LessConcat(a, b, SEP + x, SEP + y);
  }

  lemma TwoFieldOrder(r: ByteString, s: ByteString, t: ByteString, r': ByteString, s': ByteString, t': ByteString)
    requires |r| == |r'| && |s| == |s'|
    ensures Less(r + (SEP + (s + (SEP + t))), r' + (SEP + (s' + (SEP + t')))) <==>
            Less(r, r') || (r == r' && (Less(s, s') || (s == s' && Less(t, t'))))
  {
    FieldOrder(s, s', t, t');
    FieldOrder(r, r', s + (SEP + t), s' + (SEP + t'));
  }

  lemma TimeAndBelowOrder(a: Key, b: Key)
    ensures Less(TimeAndBelow(a), TimeAndBelow(b)) <==>
            || AsUint64(a.readyTs) < AsUint64(b.readyTs)
            || (a.readyTs == b.readyTs && (
                  || a.sequence < b.sequence
                  || (a.sequence == b.sequence && Less(a.taskID, b.taskID))))
  {
    U64Order(AsUint64(a.readyTs), AsUint64(b.readyTs));
    U64Order(a.sequence, b.sequence);
    TwoFieldOrder(EncodeU64BE(AsUint64(a.readyTs)), EncodeU64BE(a.sequence), a.taskID,
                  EncodeU64BE(AsUint64(b.readyTs)), EncodeU64BE(b.sequence), b.taskID);
  }

  /** Byte order of two keys of one queue, for all field values. */
  lemma KeyOrderUnsigned(a: Key, b: Key)
    requires a.queueID == b.queueID
    ensures Less(KeyBytes(a), KeyBytes(b)) <==>
            || a.priority < b.priority
            || (a.priority == b.priority && (
                  || AsUint64(a.readyTs) < AsUint64(b.readyTs)
                  || (a.readyTs == b.readyTs && (
                        || a.sequence < b.sequence
                        || (a.sequence == b.sequence && Less(a.taskID, b.taskID))))))
  {
    TimeAndBelowOrder(a, b);
    I64Order(a.priority, b.priority);
    FieldOrder(EncodeI64BE(a.priority), EncodeI64BE(b.priority), TimeAndBelow(a), TimeAndBelow(b));
    SamePrefix(Prefix(a.queueID), Rest(a), Rest(b));
  }

  lemma SamePrefix(p: ByteString, x: ByteString, y: ByteString)
    ensures Less(p + x, p + y) <==> Less(x, y)
  {
    LessIrreflexive(p);
    LessConcat(p, p, x, y);
  }

  /** Reading timestamps as unsigned keeps their order exactly when they have one sign. */
  lemma TimestampOrder(v: Int64, w: Int64)
    ensures v < 0 <= w ==> !(AsUint64(v) < AsUint64(w))
    ensures w < 0 <= v ==> AsUint64(v) < AsUint64(w)
    ensures (v < 0 <==> w < 0) ==> (AsUint64(v) < AsUint64(w) <==> v < w)
  {
  }

  /** Byte order is the promised order exactly when timestamps that get compared have one sign:
      the timestamp field, unlike the priority field, is written without the sign flip. */
  lemma KeyOrder(a: Key, b: Key)
    requires a.queueID == b.queueID
    ensures (Less(KeyBytes(a), KeyBytes(b)) <==> Before(a, b)) <==>
            (a.priority == b.priority ==> (a.readyTs < 0 <==> b.readyTs < 0))
  {
    KeyOrderUnsigned(a, b);
    TimestampOrder(a.readyTs, b.readyTs);
  }

  /** A concrete pair that the encoding puts the wrong way round. */
  lemma NegativeTimestampSortsLast()
    ensures var early := Key([], 0, -1, 0, [1]);
            var late := Key([], 0, 1, 0, [1]);
            Before(early, late) && Less(KeyBytes(late), KeyBytes(early))
  {
    KeyOrderUnsigned(Key([], 0, 1, 0, [1]), Key([], 0, -1, 0, [1]));
  }

  /** Where the fields of an encoded key sit. */
  lemma KeyLayout(k: Key)
    ensures var d, n := KeyBytes(k), |QUEUE| + |k.queueID|;
            && |d| == n + 28 + |k.taskID|
            && d[..|QUEUE|] == QUEUE == [0x71, 0x75, 0x65, 0x75, 0x65, 0x2F] && d[|QUEUE|..n] == k.queueID
            && d[n] == d[n + 9] == d[n + 18] == d[n + 27] == SLASH == 0x2F
            && d[n + 1..n + 9] == EncodeI64BE(k.priority)
            && d[n + 10..n + 18] == EncodeU64BE(AsUint64(k.readyTs))
            && d[n + 19..n + 27] == EncodeU64BE(k.sequence)
            && d[n + 28..] == k.taskID
  {
  }

  /** The layout determines the key, so different canonical keys never collide in the store. */
  lemma KeyBytesInjective(a: Key, b: Key)
    requires Canonical(a) && Canonical(b)
    requires KeyBytes(a) == KeyBytes(b)
    ensures a == b
  {
    KeyLayout(a);
    KeyLayout(b);
    PrefixIsolation(a.queueID, b);
    I64Order(a.priority, b.priority);
    U64Order(AsUint64(a.readyTs), AsUint64(b.readyTs));
    U64Order(a.sequence, b.sequence);
  }

  /** What a scan for a slash-free name meets: the keys of that queue, and of every queue whose name
      continues it with a slash. */
  lemma PrefixCoversExactly(name: ByteString, k: Key)
    requires SlashFree(name)
    ensures Prefix(name) <= KeyBytes(k) <==> k.queueID == name || name + SEP <= k.queueID
  {
    KeyLayout(k);
    var d, p, q := KeyBytes(k), Prefix(name), |QUEUE|;
    assert |p| == q + |name| + 1 && p[..q] == QUEUE && p[q..] == name + SEP;
    hide KeyBytes;
    if p <= d {
      assert d[..|p|] == p;
      CoveredName(d[q..], name, k.queueID);
    }
    if k.queueID == name || name + SEP <= k.queueID {
      assert d[..q + |name| + 1] == d[..q] + d[q..q + |name| + 1];
    }
  }

  lemma CoveredName(tail: ByteString, name: ByteString, queueID: ByteString)
    requires SlashFree(name) && name + SEP <= tail
    requires |queueID| < |tail| && tail[..|queueID|] == queueID && tail[|queueID|] == SLASH
    ensures queueID == name || name + SEP <= queueID
  {
    assert tail[..|name| + 1] == name + SEP;
    assert forall i :: 0 <= i < |name| ==> tail[i] == name[i];
    assert |queueID| >= |name|;
    assert queueID[..|name|] == tail[..|name|] == name;
  }

  lemma ContinuedName(name: ByteString, queueID: ByteString)
    requires name + SEP <= queueID
    ensures !SlashFree(queueID)
  {
    assert queueID[|name|] == (name + SEP)[|name|] == SLASH;
  }

  /** A scan of one queue's prefix meets exactly that queue's keys when all names are slash-free. */
  lemma PrefixIsolation(name: ByteString, k: Key)
    requires SlashFree(name) && SlashFree(k.queueID)
    ensures Prefix(name) <= KeyBytes(k) <==> k.queueID == name
  {
    hide KeyBytes;
    PrefixCoversExactly(name, k);
    if name + SEP <= k.queueID {
      ContinuedName(name, k.queueID);
    }
  }

  // ---------------------------------------------------------------- Encode and DecodeQueueKey

  ghost function Join(parts: seq<ByteString>): ByteString {
    if parts == [] then [] else parts[0] + Join(parts[1..])
  }

  lemma JoinFrom(parts: seq<ByteString>, i: nat)
    requires i < |parts|
    ensures Join(parts[i..]) == parts[i] + Join(parts[i + 1..])
  {
    assert parts[i..][1..] == parts[i + 1..];
  }

  lemma JoinTen(p: seq<ByteString>)
    requires |p| == 10
    ensures Join(p) == p[0] + (p[1] + (p[2] + (p[3] + (p[4] + (p[5] + (p[6] + (p[7] + (p[8] + p[9]))))))))
  {
    JoinFrom(p, 9);
    assert Join(p[9..]) == p[9];
    JoinFrom(p, 8);
    JoinFrom(p, 7);
    JoinFrom(p, 6);
    JoinFrom(p, 5);
    JoinFrom(p, 4);
    JoinFrom(p, 3);
    JoinFrom(p, 2);
    JoinFrom(p, 1);
  }

  /** Lays the ten parts of a key out in one buffer. */
  method Encode(k: Key) returns (result: array<Byte>)
    ensures fresh(result)
    ensures result[..] == KeyBytes(k)
  {
    var parts := [QUEUE, k.queueID, SEP, EncodeI64BE(k.priority), SEP,
                  EncodeU64BE(AsUint64(k.readyTs)), SEP, EncodeU64BE(k.sequence), SEP, k.taskID];
    JoinTen(parts);
    assert Join(parts) == KeyBytes(k) by { RightAssociated(QUEUE, k.queueID, SEP, Rest(k)); }
    result := JoinInto(parts);
  }

  lemma RightAssociated(a: ByteString, b: ByteString, c: ByteString, d: ByteString)
    ensures a + (b + (c + d)) == a + b + c + d
  {
  }

  /** The two loops of `Encode`: add up the lengths, then copy part after part at a moving offset. */
  method JoinInto(parts: seq<ByteString>) returns (result: array<Byte>)
    ensures fresh(result)
    ensures result[..] == Join(parts)
  {
    var totalLen := 0;
    for i := 0 to |parts|
      invariant totalLen + |Join(parts[i..])| == |Join(parts)|
    {
      JoinFrom(parts, i);
      totalLen := totalLen + |parts[i]|;
    }
    result := new Byte[totalLen];
    var offset := 0;
    for i := 0 to |parts|
      invariant offset <= totalLen
      invariant result[..offset] + Join(parts[i..]) == Join(parts)
    {
      JoinFrom(parts, i);
      var part := parts[i];
      ghost var done := result[..offset];
      assert (done + part) + Join(parts[i + 1..]) == Join(parts);
      forall j | 0 <= j < |part| {
        result[offset + j] := part[j];
      }
      offset := offset + |part|;
      assert result[..offset] == done + part;
    }
    assert result[..] == result[..offset];
  }

  datatype DecodeError =
    | MissingPrefix | NoQueueBoundary
    | TruncatedPriority | TruncatedReadyTs | TruncatedSequence
    | NoSlashAfterPriority | NoSlashAfterReadyTs | NoSlashAfterSequence

  datatype Decoded = Ok(key: Key) | Err(error: DecodeError)

  /** `data` has the shape of a canonical key whose queue name ends at `n`. */
  ghost predicate Shape(data: ByteString, n: int) {
    && |QUEUE| <= n < |data| - 28
    && QUEUE <= data
    && data[n] == data[n + 9] == data[n + 18] == data[n + 27] == SLASH
    && SlashFree(data[|QUEUE|..n])
  }

  lemma ShapelessIsNoKey(data: ByteString)
    requires forall n :: !Shape(data, n)
    ensures forall k :: Canonical(k) ==> KeyBytes(k) != data
  {
    forall k | Canonical(k) ensures KeyBytes(k) != data {
      KeyLayout(k);
      assert !Shape(data, |QUEUE| + |k.queueID|);
    }
  }

  /** The position of the first slash with at least 28 bytes behind it, or -1. */
  method FindBoundary(data: ByteString, offset: nat) returns (queueIDEnd: int)
    requires offset <= |data|
    ensures queueIDEnd == -1 || offset <= queueIDEnd < |data| - 28
    ensures queueIDEnd == -1 ==> forall j :: offset <= j < |data| ==> data[j] != SLASH || |data| - j - 1 < 28
    ensures queueIDEnd != -1 ==> data[queueIDEnd] == SLASH && SlashFree(data[offset..queueIDEnd])
  {
    var i := offset;
    while i < |data|
      invariant offset <= i <= |data|
      invariant forall j :: offset <= j < i ==> data[j] != SLASH || |data| - j - 1 < 28
    {
      if data[i] == SLASH {
        var remaining := |data| - i - 1;
        if remaining >= 28 {
          return i;
        }
      }
      i := i + 1;
    }
    return -1;
  }

  /** Only the boundary can start the fixed-width fields. */
  lemma BoundaryIsUnique(data: ByteString, n: int, m: int)
    requires |QUEUE| <= n < |data| && data[n] == SLASH && SlashFree(data[|QUEUE|..n])
    requires Shape(data, m)
    ensures n == m
  {
  }

  /** Positional parsing. It accepts exactly the encodings of canonical keys, returns the key that
      was encoded, and never takes one of its three truncated-field exits. */
  method DecodeQueueKey(data: ByteString) returns (r: Decoded)
    ensures r.Ok? ==> Canonical(r.key) && KeyBytes(r.key) == data
    ensures r.Err? ==> forall k :: Canonical(k) ==> KeyBytes(k) != data
    ensures r == Err(MissingPrefix) <==> !(QUEUE <= data)
    ensures r.Err? ==> r.error !in {TruncatedPriority, TruncatedReadyTs, TruncatedSequence}
  {
    r := ParseFields(data);
    if r.Err? {
      ShapelessIsNoKey(data);
    }
  }

  method ParseFields(data: ByteString) returns (r: Decoded)
    ensures r.Ok? ==> Canonical(r.key) && KeyBytes(r.key) == data
    ensures r.Err? ==> forall n :: !Shape(data, n)
    ensures r == Err(MissingPrefix) <==> !(QUEUE <= data)
    ensures r.Err? ==> r.error !in {TruncatedPriority, TruncatedReadyTs, TruncatedSequence}
  {
    if |data| < |QUEUE| || data[..|QUEUE|] != QUEUE {
      return Err(MissingPrefix);
    }
    var offset := |QUEUE|;
    var queueIDEnd := FindBoundary(data, offset);
    if queueIDEnd < 0 {
      return Err(NoQueueBoundary);
    }
    assert forall m :: Shape(data, m) ==> m == queueIDEnd by {
      forall m | Shape(data, m) ensures m == queueIDEnd { BoundaryIsUnique(data, queueIDEnd, m); }
    }
    var queueID := data[offset..queueIDEnd];
    offset := queueIDEnd + 1;

    if offset + 8 > |data| { return Err(TruncatedPriority); }
    var priority := DecodeI64BE(data[offset..offset + 8]);
    offset := offset + 8;
    if offset >= |data| || data[offset] != SLASH { return Err(NoSlashAfterPriority); }
    offset := offset + 1;

    if offset + 8 > |data| { return Err(TruncatedReadyTs); }
    var readyTs := AsInt64(DecodeU64BE(data[offset..offset + 8]));
    offset := offset + 8;
    if offset >= |data| || data[offset] != SLASH { return Err(NoSlashAfterReadyTs); }
    offset := offset + 1;

    if offset + 8 > |data| { return Err(TruncatedSequence); }
    var sequence := DecodeU64BE(data[offset..offset + 8]);
    offset := offset + 8;
    if offset >= |data| || data[offset] != SLASH { return Err(NoSlashAfterSequence); }
    offset := offset + 1;

    r := Ok(Key(queueID, priority, readyTs, sequence, data[offset..]));
    Reassemble(data, queueIDEnd, r.key);
  }

  lemma JoinSlices(d: ByteString, e: ByteString, a: nat, b: nat, c: nat)
    requires a <= b <= c <= |d| && c <= |e|
    requires d[a..b] == e[a..b] && d[b..c] == e[b..c]
    ensures d[a..c] == e[a..c]
  {
    assert d[a..c] == d[a..b] + d[b..c];
    assert e[a..c] == e[a..b] + e[b..c];
  }

  lemma JoinAtSlash(d: ByteString, e: ByteString, b: nat, c: nat)
    requires b < c <= |d| && c <= |e|
    requires d[..b] == e[..b] && d[b] == e[b] && d[b + 1..c] == e[b + 1..c]
    ensures d[..c] == e[..c]
  {
    JoinSlices(d, e, b, b + 1, c);
    JoinSlices(d, e, 0, b, c);
  }

  /** The fields cut out of well-separated bytes encode back to those bytes. */
  lemma Reassemble(data: ByteString, n: nat, k: Key)
    requires Shape(data, n)
    requires k.queueID == data[|QUEUE|..n] && k.taskID == data[n + 28..]
    requires k.priority == DecodeI64BE(data[n + 1..n + 9])
    requires k.readyTs == AsInt64(DecodeU64BE(data[n + 10..n + 18]))
    requires k.sequence == DecodeU64BE(data[n + 19..n + 27])
    ensures KeyBytes(k) == data
  {
    hide KeyBytes;
    hide EncodeI64BE;
    hide EncodeU64BE;
    hide DecodeI64BE;
    hide DecodeU64BE;
    hide SlashFree;
    KeyLayout(k);
    I64RoundTrip(0, data[n + 1..n + 9]);
    U64RoundTrip(0, data[n + 10..n + 18]);
    U64RoundTrip(0, data[n + 19..n + 27]);
    var d := KeyBytes(k);
    JoinSlices(d, data, 0, |QUEUE|, n);
    JoinAtSlash(d, data, n, n + 9);
    JoinAtSlash(d, data, n + 9, n + 18);
    JoinAtSlash(d, data, n + 18, n + 27);
    JoinAtSlash(d, data, n + 27, |data|);
  }

  /** Both directions of the codec at once: what the decoder promises about the encoding of a key means
      that it returns that key exactly when the key is canonical. */
  lemma DecodedExactly(k: Key, r: Decoded)
    requires r.Ok? ==> Canonical(r.key) && KeyBytes(r.key) == KeyBytes(k)
    requires r.Err? ==> forall k' :: Canonical(k') ==> KeyBytes(k') != KeyBytes(k)
    ensures r == Ok(k) <==> Canonical(k)
  {
    if r.Ok? && Canonical(k) {
      KeyBytesInjective(k, r.key);
    }
  }
}
