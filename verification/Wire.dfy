/** The IPC wire protocol (client.go, lines 279-323 and 469-581): frames on a connection, and the two
    list responses, which differ only in the width of a key's length prefix. */
module Wire {
  import opened Bytes
  import opened Options

  const OP_OK: Byte := 0x80
  const OP_ERROR: Byte := 0x81
  const OP_VALUE: Byte := 0x82

  const TWO32: int := 0x1_0000_0000

  // ---------------------------------------------------------------- frames

  datatype Message = Message(op: Byte, payload: ByteString)

  function LE32(n: nat): (r: ByteString)
    requires n < TWO32
    ensures |r| == 4
  {
    PowWidths();
    ToLE(n, 4)
  }

  function FromLE32(b: ByteString): (n: nat)
    requires |b| == 4
    ensures n < TWO32
  {
    PowWidths();
    FromLE(b)
  }

  lemma LE32RoundTrip(n: nat, b: ByteString)
    requires |b| == 4
    ensures n < TWO32 ==> FromLE32(LE32(n)) == n
    ensures LE32(FromLE32(b)) == b
  {
    PowWidths();
    if n < TWO32 { FromToLE(n, 4); }
    ToFromLE(b);
  }

  /** Opcode, length, payload. The length is cut to 32 bits. */
  function Frame(m: Message): ByteString {
    [m.op] + LE32(|m.payload| % TWO32) + m.payload
  }

  /** The bytes of a frame: the opcode, the payload's length with its lowest byte first, the payload. */
  lemma FrameBytes(m: Message)
    ensures var b, n := Frame(m), |m.payload|;
            && |b| == 5 + n && b[0] == m.op && b[5..] == m.payload
            && b[1] == n % 256 && b[2] == n / 0x100 % 256 && b[3] == n / 0x1_0000 % 256 && b[4] == n / 0x100_0000 % 256
  {
    var n := |m.payload| % TWO32;
    LengthBytes(n);
    HighBitsDropOut(|m.payload|);
    hide LE32;
    assert Frame(m)[1..5] == LE32(n);
  }

  lemma LengthBytes(n: nat)
    requires n < TWO32
    ensures LE32(n)[0] == n % 256 && LE32(n)[1] == n / 0x100 % 256
    ensures LE32(n)[2] == n / 0x1_0000 % 256 && LE32(n)[3] == n / 0x100_0000 % 256
  {
    PowWidths();
    LittleEndianByte(n, 4, 0);
    LittleEndianByte(n, 4, 1);
    LittleEndianByte(n, 4, 2);
    LittleEndianByte(n, 4, 3);
    assert Pow256(0) == 1 && Pow256(1) == 0x100 && Pow256(2) == 0x1_0000 && Pow256(3) == 256 * Pow256(2);
  }

  lemma HighBitsDropOut(n: nat)
    ensures var m := n % TWO32;
            && m % 256 == n % 256 && m / 0x100 % 256 == n / 0x100 % 256
            && m / 0x1_0000 % 256 == n / 0x1_0000 % 256 && m / 0x100_0000 % 256 == n / 0x100_0000 % 256
  {
    var m, q := n % TWO32, n / TWO32;
    MultipleDropsOut(m, 0x100_0000 * q, 1);
    MultipleDropsOut(m, 0x1_0000 * q, 0x100);
    MultipleDropsOut(m, 0x100 * q, 0x1_0000);
    MultipleDropsOut(m, q, 0x100_0000);
  }

  lemma MultipleDropsOut(m: nat, k: nat, d: nat)
    requires d > 0
    ensures (m + 256 * d * k) / d % 256 == m / d % 256
  {
    assert m == d * (m / d) + m % d;
    assert m + 256 * d * k == d * (m / d + 256 * k) + m % d by {
      assert 256 * d * k == d * (256 * k);
      assert d * (m / d + 256 * k) == d * (m / d) + d * (256 * k);
    }
    QuotientIs(m + 256 * d * k, d, m / d + 256 * k, m % d);
  }

  /** The first frame of a stream and what follows it. */
  function Unframe(b: ByteString): Option<(Message, ByteString)> {
    if |b| < 5 then None else
      var n := FromLE32(b[1..5]);
      if |b| < 5 + n then None else Some((Message(b[0], b[5..5 + n]), b[5 + n..]))
  }

  /** A frame is read back as it was sent exactly when its length fits the header. */
  lemma FrameRoundTrip(m: Message, rest: ByteString)
    ensures Unframe(Frame(m) + rest) == Some((m, rest)) <==> |m.payload| < TWO32
  {
    var b, n := Frame(m) + rest, |m.payload| % TWO32;
    LE32RoundTrip(n, LE32(n));
    assert b[1..5] == LE32(n);
    assert b[5..] == m.payload + rest;
    if |m.payload| < TWO32 {
      assert b[5..5 + n] == m.payload && b[5 + n..] == rest;
    }
  }

  /** Nothing else is ever read: what Unframe returns is the frame at the front of the stream. */
  lemma UnframeIsFrame(b: ByteString)
    requires Unframe(b).Some?
    ensures b == Frame(Unframe(b).value.0) + Unframe(b).value.1
  {
    hide FromLE32;
    hide LE32;
    LE32RoundTrip(0, b[1..5]);
    var n := FromLE32(b[1..5]);
    assert b == [b[0]] + b[1..5] + b[5..5 + n] + b[5 + n..];
  }

  ghost function Frames(ms: seq<Message>): ByteString {
    if ms == [] then [] else Frame(ms[0]) + Frames(ms[1..])
  }

  ghost function UnframeMany(b: ByteString, n: nat): Option<(seq<Message>, ByteString)> {
    if n == 0 then Some(([], b)) else
      match Unframe(b)
      case None => None
      case Some((m, rest)) =>
        match UnframeMany(rest, n - 1)
        case None => None
        case Some((ms, last)) => Some(([m] + ms, last))
  }

  /** A sequence of frames is read back as the same sequence exactly when every payload fits. */
  lemma {:induction false} FramesRoundTrip(ms: seq<Message>, rest: ByteString)
    ensures UnframeMany(Frames(ms) + rest, |ms|) == Some((ms, rest)) <==> forall m :: m in ms ==> |m.payload| < TWO32
    decreases |ms|
  {
    if ms == [] {
      assert Frames(ms) + rest == rest;
    } else {
      hide Frame;
      hide Unframe;
      var tail := Frames(ms[1..]) + rest;
      assert Frames(ms) + rest == Frame(ms[0]) + tail;
      FrameRoundTrip(ms[0], tail);
      FramesRoundTrip(ms[1..], rest);
      if |ms[0].payload| >= TWO32 {
        LongFrameIsMangled(ms[0], tail);
      }
      assert ms == [ms[0]] + ms[1..];
      hide Frames;
    }
  }

  lemma LongFrameIsMangled(m: Message, rest: ByteString)
    requires |m.payload| >= TWO32
    ensures Unframe(Frame(m) + rest).None? || Unframe(Frame(m) + rest).value.0 != m
  {
    var b, n := Frame(m) + rest, |m.payload| % TWO32;
    LE32RoundTrip(n, LE32(n));
    assert b[1..5] == LE32(n);
  }

  /** A byte-stream connection. */
  class Connection {
    var incoming: ByteString
    var outgoing: ByteString

    constructor (incoming: ByteString)
      ensures this.incoming == incoming && outgoing == []
    {
      this.incoming := incoming;
      this.outgoing := [];
    }

    method SendMessage(op: Byte, payload: ByteString)
      modifies this`outgoing
      ensures outgoing == old(outgoing) + Frame(Message(op, payload))
    {
      var msg := [op] + LE32(|payload| % TWO32);
      if |payload| > 0 {
        msg := msg + payload;
      }
      outgoing := outgoing + msg;
      assert payload == [] ==> msg == msg + payload;
    }

    /** All of the next `n` bytes, or an error once the stream has run dry. */
    method ReadFull(n: nat) returns (r: Option<ByteString>)
      modifies this`incoming
      ensures |old(incoming)| >= n ==> r == Some(old(incoming)[..n]) && incoming == old(incoming)[n..]
      ensures |old(incoming)| < n ==> r == None && incoming == []
    {
      if |incoming| >= n {
        r := Some(incoming[..n]);
        incoming := incoming[n..];
      } else {
        r := None;
        incoming := [];
      }
    }

    method ReadMessage() returns (r: Option<Message>)
      modifies this`incoming
      ensures match Unframe(old(incoming))
              case None => r == None && incoming == []
              case Some((m, rest)) => r == Some(m) && incoming == rest
    {
      hide FromLE32;
      ghost var b := incoming;
      var opcode := ReadFull(1);
      if opcode.None? { return None; }
      var len := ReadFull(4);
      if len.None? { return None; }
      assert b[1..][..4] == b[1..5] && b[1..][4..] == b[5..];
      var n := FromLE32(len.value);
      var payload := Some([]);
      if n > 0 {
        payload := ReadFull(n);
        if payload.None? { return None; }
        assert b[5..][..n] == b[5..5 + n] && b[5..][n..] == b[5 + n..];
      }
      assert len.value == b[1..5] && |b| >= 5 + n;
      assert payload.value == b[5..5 + n] && incoming == b[5 + n..];
      r := Some(Message(opcode.value[0], payload.value));
    }
  }

  // ---------------------------------------------------------------- list responses

  datatype KeyValue = KeyValue(key: ByteString, value: ByteString)

  predicate Fits(kv: KeyValue, width: nat) {
    |kv.key| < Pow256(width) && |kv.value| < TWO32
  }

  /** Key length (`width` bytes), key, value length (4 bytes), value. */
  function EntryBytes(kv: KeyValue, width: nat): ByteString
    requires Fits(kv, width)
  {
    ToLE(|kv.key|, width) + (kv.key + (LE32(|kv.value|) + kv.value))
  }

  ghost predicate AllFit(kvs: seq<KeyValue>, width: nat) {
    forall i :: 0 <= i < |kvs| ==> Fits(kvs[i], width)
  }

  ghost function EntriesBytes(kvs: seq<KeyValue>, width: nat): ByteString
    requires AllFit(kvs, width)
  {
    if kvs == [] then [] else EntryBytes(kvs[0], width) + EntriesBytes(kvs[1..], width)
  }

  /** The documented payload: a count, then the entries. */
  ghost function ListBytes(kvs: seq<KeyValue>, width: nat): ByteString
    requires AllFit(kvs, width) && |kvs| < TWO32
  {
    LE32(|kvs|) + EntriesBytes(kvs, width)
  }

  /** The bytes of an entry, written out: the key's length with its lowest byte first, the key, the
      value's length likewise, the value. */
  lemma EntryLayout(kv: KeyValue, width: nat)
    requires Fits(kv, width)
    ensures var b, k, v := EntryBytes(kv, width), |kv.key|, |kv.value|;
            && |b| == width + k + 4 + v
            && (forall i :: 0 <= i < width ==> b[i] == k / Pow256(i) % 256)
            && b[width..width + k] == kv.key
            && b[width + k] == v % 256 && b[width + k + 1] == v / 0x100 % 256
            && b[width + k + 2] == v / 0x1_0000 % 256 && b[width + k + 3] == v / 0x100_0000 % 256
            && b[width + k + 4..] == kv.value
  {
    var k, v := |kv.key|, |kv.value|;
    forall i | 0 <= i < width ensures ToLE(k, width)[i] == k / Pow256(i) % 256 { LittleEndianByte(k, width, i); }
    LengthBytes(v);
    hide ToLE;
    hide LE32;
    Joined(ToLE(k, width), kv.key, LE32(v), kv.value, [], EntryBytes(kv, width));
    assert EntryBytes(kv, width)[width + k..width + k + 4] == LE32(v);
  }

  /** A list of one entry, key "k" and value "vw", as a scan response spells it. */
  lemma OneEntryList()
    ensures var kv := KeyValue([0x6B], [0x76, 0x77]);
            && |kv.key| < Pow256(2)
            && ListBytes([kv], 2) == [1, 0, 0, 0, 1, 0, 0x6B, 2, 0, 0, 0, 0x76, 0x77]
  {
    PowWidths();
    var kv := KeyValue([0x6B], [0x76, 0x77]);
    EntryLayout(kv, 2);
    LengthBytes(1);
    assert Pow256(0) == 1 && Pow256(1) == 256;
    hide EntryBytes;
    hide LE32;
    assert [kv][1..] == [];
    assert EntriesBytes([kv], 2) == EntryBytes(kv, 2);
    var b := EntryBytes(kv, 2);
    assert b[2] == b[2..3][0] && b[7] == b[7..][0] && b[8] == b[7..][1];
  }

  function ParseEntry(b: ByteString, width: nat): Option<(KeyValue, ByteString)> {
    if |b| < width then None else
      var keyLen := FromLE(b[..width]);
      if |b| < width + keyLen + 4 then None else
        var at := width + keyLen;
        var valueLen := FromLE32(b[at..at + 4]);
        if |b| < at + 4 + valueLen then None
        else Some((KeyValue(b[width..at], b[at + 4..at + 4 + valueLen]), b[at + 4 + valueLen..]))
  }

  lemma ParsedEntry(kv: KeyValue, width: nat, rest: ByteString)
    requires Fits(kv, width)
    ensures ParseEntry(EntryBytes(kv, width) + rest, width) == Some((kv, rest))
  {
    var b, at, n := EntryBytes(kv, width) + rest, width + |kv.key|, |kv.value|;
    FromToLE(|kv.key|, width);
    LE32RoundTrip(n, LE32(n));
    hide ToLE;
    hide FromLE;
    hide LE32;
    Joined(ToLE(|kv.key|, width), kv.key, LE32(n), kv.value, rest, b);
  }

  /** Where each of five joined pieces stands. */
  lemma Joined(p: ByteString, q: ByteString, r: ByteString, s: ByteString, t: ByteString, b: ByteString)
    requires b == p + (q + (r + s)) + t
    ensures var i, j := |p| + |q|, |p| + |q| + |r|;
            b[..|p|] == p && b[|p|..i] == q && b[i..j] == r && b[j..j + |s|] == s && b[j + |s|..] == t
  {
  }

  lemma ParsedEntryOnly(b: ByteString, width: nat)
    requires ParseEntry(b, width).Some?
    ensures var (kv, rest) := ParseEntry(b, width).value;
            Fits(kv, width) && b == EntryBytes(kv, width) + rest
  {
    hide ParseEntry;
    hide ToLE;
    hide FromLE;
    hide LE32;
    hide FromLE32;
    var (kv, rest) := ParseEntry(b, width).value;
    var at, n := width + |kv.key|, |kv.value|;
    EntrySlices(b, width);
    ToFromLE(b[..width]);
    LE32RoundTrip(0, b[at..at + 4]);
    FiveSlices(b, width, at, at + 4, at + 4 + n);
  }

  lemma EntrySlices(b: ByteString, width: nat)
    requires ParseEntry(b, width).Some?
    ensures var (kv, rest) := ParseEntry(b, width).value;
            var at, n := width + |kv.key|, |kv.value|;
            && at + 4 + n <= |b| && kv.key == b[width..at] && kv.value == b[at + 4..at + 4 + n] && rest == b[at + 4 + n..]
            && FromLE(b[..width]) == |kv.key| && FromLE32(b[at..at + 4]) == n
  {
    hide FromLE;
    hide FromLE32;
  }

  lemma FiveSlices(b: ByteString, i: nat, j: nat, k: nat, l: nat)
    requires i <= j <= k <= l <= |b|
    ensures b == b[..i] + (b[i..j] + (b[j..k] + b[k..l])) + b[l..]
  {
  }

  ghost function ParseEntries(b: ByteString, count: nat, width: nat): Option<seq<KeyValue>> {
    if count == 0 then Some([]) else
      match ParseEntry(b, width)
      case None => None
      case Some((kv, rest)) =>
        match ParseEntries(rest, count - 1, width)
        case None => None
        case Some(kvs) => Some([kv] + kvs)
  }

  lemma {:induction false} ParsedEntries(kvs: seq<KeyValue>, width: nat, rest: ByteString)
    requires AllFit(kvs, width)
    ensures ParseEntries(EntriesBytes(kvs, width) + rest, |kvs|, width) == Some(kvs)
    decreases |kvs|
  {
    hide Fits;
    hide EntryBytes;
    hide ParseEntry;
    if kvs != [] {
      var tail := EntriesBytes(kvs[1..], width) + rest;
      assert EntriesBytes(kvs, width) + rest == EntryBytes(kvs[0], width) + tail;
      ParsedEntry(kvs[0], width, tail);
      ParsedEntries(kvs[1..], width, rest);
      assert kvs == [kvs[0]] + kvs[1..];
    }
  }

  lemma {:induction false} ParsedEntriesOnly(b: ByteString, count: nat, width: nat)
    requires ParseEntries(b, count, width).Some?
    ensures var kvs := ParseEntries(b, count, width).value;
            |kvs| == count && AllFit(kvs, width) && EntriesBytes(kvs, width) <= b
    decreases count
  {
    if count > 0 {
      var (kv, rest) := ParseEntry(b, width).value;
      ParsedEntryOnly(b, width);
      ParsedEntriesOnly(rest, count - 1, width);
      var kvs := ParseEntries(b, count, width).value;
      assert kvs[1..] == ParseEntries(rest, count - 1, width).value;
      hide ParseEntry;
      hide ParseEntries;
      hide EntryBytes;
      PrefixOfTail(EntryBytes(kv, width), EntriesBytes(kvs[1..], width), rest);
    }
  }

  lemma PrefixOfTail(a: ByteString, b: ByteString, rest: ByteString)
    requires b <= rest
    ensures a + b <= a + rest
  {
    assert rest == b + rest[|b|..];
    assert a + rest == (a + b) + rest[|b|..];
  }

  /** `kvs` is laid out at the front of `payload`. */
  ghost predicate LaidOut(kvs: seq<KeyValue>, width: nat, payload: ByteString) {
    AllFit(kvs, width) && |kvs| < TWO32 && ListBytes(kvs, width) <= payload
  }

  /** The parser's answer is the list laid out, and there is at most one. */
  lemma ParseIsExact(payload: ByteString, width: nat)
    requires |payload| >= 4
    ensures var r := ParseEntries(payload[4..], FromLE32(payload[..4]), width);
            forall kvs :: LaidOut(kvs, width, payload) <==> r == Some(kvs)
  {
    var r := ParseEntries(payload[4..], FromLE32(payload[..4]), width);
    forall kvs ensures LaidOut(kvs, width, payload) <==> r == Some(kvs) {
      if LaidOut(kvs, width, payload) {
        LaidOutIsParsed(kvs, width, payload);
      }
      if r == Some(kvs) {
        ParsedIsLaidOut(kvs, width, payload);
      }
    }
  }

  lemma LaidOutIsParsed(kvs: seq<KeyValue>, width: nat, payload: ByteString)
    requires LaidOut(kvs, width, payload)
    ensures |payload| >= 4 && ParseEntries(payload[4..], FromLE32(payload[..4]), width) == Some(kvs)
  {
    hide EntriesBytes;
    hide ParseEntries;
    hide LE32;
    hide FromLE32;
    var rest := payload[|ListBytes(kvs, width)|..];
    assert payload == ListBytes(kvs, width) + rest;
    LE32RoundTrip(|kvs|, LE32(|kvs|));
    assert payload[..4] == LE32(|kvs|);
    assert payload[4..] == EntriesBytes(kvs, width) + rest;
    ParsedEntries(kvs, width, rest);
  }

  lemma ParsedIsLaidOut(kvs: seq<KeyValue>, width: nat, payload: ByteString)
    requires |payload| >= 4 && ParseEntries(payload[4..], FromLE32(payload[..4]), width) == Some(kvs)
    ensures LaidOut(kvs, width, payload)
  {
    ParsedEntriesOnly(payload[4..], FromLE32(payload[..4]), width);
    LE32RoundTrip(0, payload[..4]);
    assert payload == payload[..4] + payload[4..];
  }

  /** No strict prefix of a valid payload parses, not even as some shorter list. */
  lemma StrictPrefixRejected(kvs: seq<KeyValue>, width: nat, prefix: ByteString)
    requires AllFit(kvs, width) && |kvs| < TWO32
    requires prefix < ListBytes(kvs, width)
    ensures forall kvs' :: !LaidOut(kvs', width, prefix)
  {
    var payload := ListBytes(kvs, width);
    forall kvs' ensures !LaidOut(kvs', width, prefix) {
      if LaidOut(kvs', width, prefix) {
        LaidOutIsParsed(kvs', width, payload);
        LaidOutIsParsed(kvs, width, payload);
      }
    }
  }

  datatype Response = Entries(kvs: seq<KeyValue>) | RemoteError(message: ByteString) | UnexpectedOpcode(op: Byte) | Truncated

  /** readScanResponse (`width` 2) and readQueryResponse (`width` 4) after the frame has been read. A
      payload shorter than its count field reads as an empty list; bytes after the last entry are ignored. */
  method ReadListResponse(m: Message, width: nat) returns (r: Response)
    ensures m.op == 0x81 ==> r == RemoteError(m.payload)
    ensures m.op !in {0x80, 0x81, 0x82} ==> r == UnexpectedOpcode(m.op)
    ensures m.op in {0x80, 0x82} && |m.payload| < 4 ==> r == Entries([])
    ensures m.op in {0x80, 0x82} && |m.payload| >= 4 ==>
              || (r.Entries? && LaidOut(r.kvs, width, m.payload))
              || (r.Truncated? && forall kvs :: !LaidOut(kvs, width, m.payload))
  {
    if m.op == OP_ERROR { return RemoteError(m.payload); }
    if m.op != OP_VALUE && m.op != OP_OK { return UnexpectedOpcode(m.op); }
    var payload := m.payload;
    if |payload| < 4 { return Entries([]); }
    ParseIsExact(payload, width);
    r := ParseList(payload, width);
  }

  method ParseList(payload: ByteString, width: nat) returns (r: Response)
    requires |payload| >= 4
    ensures match ParseEntries(payload[4..], FromLE32(payload[..4]), width)
            case None => r == Truncated
            case Some(kvs) => r == Entries(kvs)
  {
    hide Continues;
    hide ParseEntry;
    var count := FromLE32(payload[..4]);
    var results: seq<KeyValue> := [];
    var offset := 4;
    ghost var whole := ParseEntries(payload[4..], count, width);
    ParseBegins(payload[4..], count, width);
    for i := 0 to count
      invariant 0 <= offset <= |payload|
      invariant Continues(whole, payload[offset..], count - i, width, results)
    {
      ParseGoesOn(whole, payload[offset..], count - i, width, results);
      var next := ParseOne(payload, offset, width);
      if next.None? { return Truncated; }
      results := results + [next.value.0];
      offset := next.value.1;
    }
    ParseEnds(whole, payload[offset..], width, results);
    return Entries(results);
  }

  /** After `results`, parsing `count` entries of `b` gives the whole. */
  ghost predicate Continues(whole: Option<seq<KeyValue>>, b: ByteString, count: nat, width: nat, results: seq<KeyValue>) {
    match ParseEntries(b, count, width)
    case None => whole == None
    case Some(kvs) => whole == Some(results + kvs)
  }

  lemma ParseBegins(b: ByteString, count: nat, width: nat)
    ensures Continues(ParseEntries(b, count, width), b, count, width, [])
  {
    assert forall kvs: seq<KeyValue> :: [] + kvs == kvs;
  }

  lemma ParseGoesOn(whole: Option<seq<KeyValue>>, b: ByteString, count: nat, width: nat, results: seq<KeyValue>)
    requires Continues(whole, b, count, width, results) && count > 0
    ensures match ParseEntry(b, width)
            case None => whole == None
            case Some((kv, rest)) => Continues(whole, rest, count - 1, width, results + [kv])
  {
    hide ParseEntry;
    if ParseEntry(b, width).Some? {
      var (kv, rest) := ParseEntry(b, width).value;
      var tail := ParseEntries(rest, count - 1, width);
      if tail.Some? {
        assert results + ([kv] + tail.value) == (results + [kv]) + tail.value;
      }
    }
  }

  lemma ParseEnds(whole: Option<seq<KeyValue>>, b: ByteString, width: nat, results: seq<KeyValue>)
    requires Continues(whole, b, 0, width, results)
    ensures whole == Some(results)
  {
    assert results + [] == results;
  }

  /** One turn of the parsing loop: an entry and the offset behind it. */
  method ParseOne(payload: ByteString, start: nat, width: nat) returns (r: Option<(KeyValue, nat)>)
    requires start <= |payload|
    ensures match ParseEntry(payload[start..], width)
            case None => r == None
            case Some((kv, rest)) => r.Some? && r.value.0 == kv && r.value.1 <= |payload| && payload[r.value.1..] == rest
  {
    hide FromLE;
    hide FromLE32;
    ghost var b := payload[start..];
    var offset: nat := start;
    if offset + width > |payload| { return None; }
    var keyLen := FromLE(payload[offset..offset + width]);
    Suffix(payload, start, 0, width);
    offset := offset + width;
    if offset + keyLen + 4 > |payload| { return None; }
    var key := payload[offset..offset + keyLen];
    Suffix(payload, start, width, width + keyLen);
    offset := offset + keyLen;
    var valueLen := FromLE32(payload[offset..offset + 4]);
    Suffix(payload, start, width + keyLen, width + keyLen + 4);
    offset := offset + 4;
    if offset + valueLen > |payload| { return None; }
    var value := payload[offset..offset + valueLen];
    Suffix(payload, start, width + keyLen + 4, width + keyLen + 4 + valueLen);
    offset := offset + valueLen;
    Suffix(payload, start, width + keyLen + 4 + valueLen, |b|);
    r := Some((KeyValue(key, value), offset));
  }

  lemma Suffix(b: ByteString, start: nat, i: nat, j: nat)
    requires start <= |b| && i <= j <= |b| - start
    ensures b[start..][i..j] == b[start + i..start + j]
  {
  }
}
