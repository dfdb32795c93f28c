/** The semantic cache (semantic_cache.go). Scores come from a parameter, `similarity`, which is None
    when the two vectors have different lengths. Keys are the cache's own, its prefix already removed;
    `size` is the length of the stored key and value. */
module SemanticCache {
  import opened Bytes
  import opened MapSums
  import opened OrderedStore
  import opened Options

  datatype CacheEntry = CacheEntry(value: string, embedding: seq<real>, timestamp: int, ttl: int, metadata: string, size: nat)

  datatype Hit = Hit(entry: CacheEntry, score: real)

  datatype CacheStats = CacheStats(count: int, hits: int, misses: int, hitRate: real, memoryUsage: int)

  type Similarity = (seq<real>, seq<real>) -> Option<real>

  predicate IsExpired(e: CacheEntry, now: int) {
    e.ttl > 0 && e.timestamp > 0 && now > e.timestamp + e.ttl
  }

  /** What readers of the cache can see. */
  ghost function Live(entries: map<ByteString, CacheEntry>, now: int): map<ByteString, CacheEntry> {
    map k | k in entries && !IsExpired(entries[k], now) :: entries[k]
  }

  // ---------------------------------------------------------------- specifications of the readers

  /** `k` holds the best entry: its score is above the threshold, no score is higher, and no key in
      front of it scores as high. */
  ghost predicate IsBestKey(sim: Similarity, live: map<ByteString, CacheEntry>, query: seq<real>,
                            threshold: real, k: ByteString) {
    && k in live && sim(query, live[k].embedding).Some? && sim(query, live[k].embedding).value > threshold
    && forall j :: j in live && sim(query, live[j].embedding).Some? ==>
         && sim(query, live[j].embedding).value <= sim(query, live[k].embedding).value
         && (Less(j, k) ==> sim(query, live[j].embedding).value < sim(query, live[k].embedding).value)
  }

  /** What Get returns, as a fact about the live entries alone. */
  ghost predicate IsAnswer(sim: Similarity, live: map<ByteString, CacheEntry>, query: seq<real>,
                           threshold: real, r: Option<Hit>) {
    match r
    case None => forall k :: k in live && sim(query, live[k].embedding).Some? ==> sim(query, live[k].embedding).value <= threshold
    case Some(hit) => exists k :: IsBestKey(sim, live, query, threshold, k)
                                  && hit == Hit(live[k], sim(query, live[k].embedding).value)
  }

  lemma AnswerIsUnique(sim: Similarity, live: map<ByteString, CacheEntry>, query: seq<real>, threshold: real,
                       r: Option<Hit>, s: Option<Hit>)
    requires IsAnswer(sim, live, query, threshold, r) && IsAnswer(sim, live, query, threshold, s)
    ensures r == s
  {
    if r.Some? && s.Some? {
      var j :| IsBestKey(sim, live, query, threshold, j) && r.value == Hit(live[j], sim(query, live[j].embedding).value);
      var k :| IsBestKey(sim, live, query, threshold, k) && s.value == Hit(live[k], sim(query, live[k].embedding).value);
      LessTotal(j, k);
    }
  }

  ghost function SizeOf(): CacheEntry -> int { (e: CacheEntry) => e.size }

  function HitRate(hits: int, misses: int): real {
    if hits + misses > 0 then hits as real / (hits + misses) as real else 0.0
  }

  ghost function StatsOf(live: map<ByteString, CacheEntry>, hits: int, misses: int): CacheStats {
    CacheStats(|live|, hits, misses, HitRate(hits, misses), Sum(live, SizeOf()))
  }

  // ---------------------------------------------------------------- the cache as a state machine

  datatype CacheState = CacheState(entries: map<ByteString, CacheEntry>, hits: int, misses: int)

  datatype Op =
    | Put(key: ByteString, entry: CacheEntry)
    | Get(query: seq<real>, threshold: real, now: int)
    | Delete(key: ByteString)
    | Clear
    | GetStats(now: int)
    | PurgeExpired(now: int)

  datatype Output = Nothing | Answer(hit: Option<Hit>) | Report(stats: CacheStats) | Removed(count: int)

  /** One operation, with what it returns. Put's entry carries the time of the call. */
  ghost predicate Step(sim: Similarity, s: CacheState, op: Op, s': CacheState, out: Output) {
    match op
    case Put(key, entry) => s' == s.(entries := s.entries[key := entry]) && out == Nothing
    case Get(query, threshold, now) =>
      && out.Answer? && IsAnswer(sim, Live(s.entries, now), query, threshold, out.hit)
      && s' == (if out.hit.Some? then s.(hits := s.hits + 1) else s.(misses := s.misses + 1))
    case Delete(key) => s' == s.(entries := s.entries - {key}) && out == Nothing
    case Clear => s' == CacheState(map[], 0, 0) && out == Removed(|s.entries|)
    case GetStats(now) => s' == s && out == Report(StatsOf(Live(s.entries, now), s.hits, s.misses))
    case PurgeExpired(now) =>
      s' == s.(entries := Live(s.entries, now)) && out == Removed(|s.entries| - |Live(s.entries, now)|)
  }

  lemma StepOfClear(sim: Similarity, s: CacheState)
    ensures Step(sim, s, Clear, CacheState(map[], 0, 0), Removed(|s.entries|))
  {
  }

  lemma StepOfPurge(sim: Similarity, s: CacheState, now: int)
    ensures Step(sim, s, PurgeExpired(now), s.(entries := Live(s.entries, now)), Removed(|s.entries| - |Live(s.entries, now)|))
  {
  }

  lemma StepOfStats(sim: Similarity, s: CacheState, now: int)
    ensures Step(sim, s, GetStats(now), s, Report(StatsOf(Live(s.entries, now), s.hits, s.misses)))
  {
  }

  function Time(op: Op): Option<int> {
    match op
    case Put(_, entry) => Some(entry.timestamp)
    case Get(_, _, now) => Some(now)
    case GetStats(now) => Some(now)
    case PurgeExpired(now) => Some(now)
    case _ => None
  }

  /** The same cache to every reader from time `now` on. */
  ghost predicate Alike(s: CacheState, t: CacheState, now: int) {
    s.hits == t.hits && s.misses == t.misses && Live(s.entries, now) == Live(t.entries, now)
  }

  /** What has expired stays expired. */
  lemma LiveLater(m: map<ByteString, CacheEntry>, now: int, later: int)
    requires now <= later
    ensures Live(m, later) == Live(Live(m, now), later)
  {
  }

  lemma LiveAfterPut(m: map<ByteString, CacheEntry>, k: ByteString, e: CacheEntry, now: int)
    ensures Live(m[k := e], now) == if IsExpired(e, now) then Live(m, now) - {k} else Live(m, now)[k := e]
  {
  }

  lemma LiveAfterDelete(m: map<ByteString, CacheEntry>, k: ByteString, now: int)
    ensures Live(m - {k}, now) == Live(m, now) - {k}
  {
  }

  lemma AlikeLater(s: CacheState, t: CacheState, now: int, later: int)
    requires Alike(s, t, now) && now <= later
    ensures Alike(s, t, later)
  {
    LiveLater(s.entries, now, later);
    LiveLater(t.entries, now, later);
  }

  /** An operation on two caches that look alike leaves them alike and tells their readers the same. */
  lemma StepAlike(sim: Similarity, s: CacheState, t: CacheState, op: Op, s': CacheState, t': CacheState,
                  out: Output, out': Output, now: int)
    requires Alike(s, t, now) && Step(sim, s, op, s', out) && Step(sim, t, op, t', out')
    requires Time(op).Some? ==> Time(op).value == now
    ensures Alike(s', t', now)
    ensures op.Get? || op.GetStats? ==> out == out'
  {
    match op
    case Put(key, entry) =>
      LiveAfterPut(s.entries, key, entry, now);
      LiveAfterPut(t.entries, key, entry, now);
    case Get(query, threshold, _) =>
      AnswerIsUnique(sim, Live(s.entries, now), query, threshold, out.hit, out'.hit);
    case Delete(key) =>
      LiveAfterDelete(s.entries, key, now);
      LiveAfterDelete(t.entries, key, now);
    case Clear =>
    case GetStats(_) =>
    case PurgeExpired(_) =>
      LiveLater(s.entries, now, now);
      LiveLater(t.entries, now, now);
  }

  /** A purge changes nothing that a reader can see. */
  lemma PurgeAlike(sim: Similarity, s: CacheState, now: int, s': CacheState, out: Output)
    requires Step(sim, s, PurgeExpired(now), s', out)
    ensures Alike(s', s, now)
  {
    LiveLater(s.entries, now, now);
  }

  // ---------------------------------------------------------------- whole runs

  /** Running `ops` from `s` can produce `outs`. */
  ghost predicate Produces(sim: Similarity, s: CacheState, ops: seq<Op>, outs: seq<Output>)
    decreases |ops|
  {
    && |outs| == |ops|
    && (ops != [] ==> exists s' :: Step(sim, s, ops[0], s', outs[0]) && Produces(sim, s', ops[1..], outs[1..]))
  }

  /** The clock does not run backwards. */
  predicate InTime(ops: seq<Op>, clock: int) {
    ops == [] ||
    (match Time(ops[0])
     case None => InTime(ops[1..], clock)
     case Some(now) => clock <= now && InTime(ops[1..], now))
  }

  function WithoutPurges(ops: seq<Op>): seq<Op> {
    if ops == [] then [] else (if ops[0].PurgeExpired? then [] else [ops[0]]) + WithoutPurges(ops[1..])
  }

  /** What Get and Stats returned along the way. */
  ghost function Readings(ops: seq<Op>, outs: seq<Output>): seq<Output>
    requires |outs| == |ops|
  {
    if ops == [] then [] else
      (if ops[0].Get? || ops[0].GetStats? then [outs[0]] else []) + Readings(ops[1..], outs[1..])
  }

  /** However many purges a run contains, and wherever, every Get and every Stats returns what it
      would have returned without them. */
  lemma {:induction false} PurgingIsInvisible(sim: Similarity, s: CacheState, t: CacheState, ops: seq<Op>,
                                              outs: seq<Output>, outs': seq<Output>, clock: int)
    requires Alike(s, t, clock) && InTime(ops, clock)
    requires Produces(sim, s, ops, outs) && Produces(sim, t, WithoutPurges(ops), outs')
    ensures Readings(ops, outs) == Readings(WithoutPurges(ops), outs')
    decreases |ops|
  {
    if ops != [] {
      var op := ops[0];
      var s' :| Step(sim, s, op, s', outs[0]) && Produces(sim, s', ops[1..], outs[1..]);
      var now := match Time(op) case None => clock case Some(now) => now;
      AlikeLater(s, t, clock, now);
      if op.PurgeExpired? {
        PurgeAlike(sim, s, now, s', outs[0]);
        assert WithoutPurges(ops) == WithoutPurges(ops[1..]);
        PurgingIsInvisible(sim, s', t, ops[1..], outs[1..], outs', now);
      } else {
        var rest := WithoutPurges(ops[1..]);
        assert WithoutPurges(ops)[0] == op && WithoutPurges(ops)[1..] == rest;
        var t' :| Step(sim, t, op, t', outs'[0]) && Produces(sim, t', rest, outs'[1..]);
        StepAlike(sim, s, t, op, s', t', outs[0], outs'[0], now);
        PurgingIsInvisible(sim, s', t', ops[1..], outs[1..], outs'[1..], now);
      }
    }
  }

  /** Clear is not such a reader: it counts expired entries too, so a purge just before it lowers its
      count exactly when something had expired. */
  lemma ClearSeesPurge(sim: Similarity, s: CacheState, now: int, purged: CacheState, removed: Output,
                       a: CacheState, outA: Output, b: CacheState, outB: Output)
    requires Step(sim, s, PurgeExpired(now), purged, removed)
    requires Step(sim, s, Clear, a, outA) && Step(sim, purged, Clear, b, outB)
    ensures outA == outB <==> forall k :: k in s.entries ==> !IsExpired(s.entries[k], now)
  {
    var live := Live(s.entries, now);
    assert live.Keys <= s.entries.Keys;
    if live.Keys != s.entries.Keys {
      ProperSubsetSmaller(live.Keys, s.entries.Keys);
    } else {
      assert live == s.entries;
    }
    assert |live| == |live.Keys| && |s.entries| == |s.entries.Keys|;
  }

  lemma {:induction false} ProperSubsetSmaller(a: set<ByteString>, b: set<ByteString>)
    requires a < b
    ensures |a| < |b|
  {
    var x :| x in b && x !in a;
    assert b == a + {x} + (b - a - {x});
    assert |b| == |a + {x}| + |b - a - {x}|;
  }

  // ---------------------------------------------------------------- the object

  type Listed = Entry<CacheEntry>

  /** The live entries among the first `i` of a listing. */
  ghost function Seen(kvs: seq<Listed>, i: nat, now: int): map<ByteString, CacheEntry>
    requires i <= |kvs|
  {
    if i == 0 then map[]
    else if IsExpired(kvs[i - 1].1, now) then Seen(kvs, i - 1, now)
    else Seen(kvs, i - 1, now)[kvs[i - 1].0 := kvs[i - 1].1]
  }

  /** The expired keys among them, in order. */
  ghost function ExpiredKeys(kvs: seq<Listed>, i: nat, now: int): seq<ByteString>
    requires i <= |kvs|
  {
    if i == 0 then []
    else ExpiredKeys(kvs, i - 1, now) + if IsExpired(kvs[i - 1].1, now) then [kvs[i - 1].0] else []
  }

  lemma OneMoreElement(keys: seq<ByteString>, k: ByteString)
    ensures Elements(keys + [k]) == Elements(keys) + {k}
  {
  }

  ghost function Scanned(kvs: seq<Listed>, i: nat): set<ByteString>
    requires i <= |kvs|
  {
    if i == 0 then {} else Scanned(kvs, i - 1) + {kvs[i - 1].0}
  }

  lemma {:induction false} ScannedAre(kvs: seq<Listed>, i: nat)
    requires i <= |kvs|
    ensures forall k :: k in Scanned(kvs, i) <==> exists j :: 0 <= j < i && kvs[j].0 == k
  {
    if i > 0 {
      ScannedAre(kvs, i - 1);
    }
  }

  ghost predicate Splits(scanned: set<ByteString>, live: map<ByteString, CacheEntry>, gone: set<ByteString>) {
    scanned == live.Keys + gone && live.Keys !! gone
  }

  lemma SplitLive(scanned: set<ByteString>, live: map<ByteString, CacheEntry>, gone: set<ByteString>,
                  k: ByteString, e: CacheEntry)
    requires Splits(scanned, live, gone) && k !in scanned
    ensures Splits(scanned + {k}, live[k := e], gone)
  {
  }

  lemma SplitGone(scanned: set<ByteString>, live: map<ByteString, CacheEntry>, gone: set<ByteString>, k: ByteString)
    requires Splits(scanned, live, gone) && k !in scanned
    ensures Splits(scanned + {k}, live, gone + {k})
  {
  }

  lemma NothingSplits()
    ensures Splits({}, map[], Elements([]))
  {
  }

  /** A listing splits into what is live and what has expired. */
  lemma {:induction false} ListingSplits(kvs: seq<Listed>, m: map<ByteString, CacheEntry>, i: nat, now: int)
    requires i <= |kvs| && IsListing(kvs, m, [])
    ensures Splits(Scanned(kvs, i), Seen(kvs, i, now), Elements(ExpiredKeys(kvs, i, now)))
  {
    hide Splits;
    hide Elements;
    hide IsListing;
    if i == 0 {
      NothingSplits();
    } else {
      ListingSplits(kvs, m, i - 1, now);
      NextKeyIsNew(kvs, m, i - 1);
      var k, e := kvs[i - 1].0, kvs[i - 1].1;
      if IsExpired(e, now) {
        SplitGone(Scanned(kvs, i - 1), Seen(kvs, i - 1, now), Elements(ExpiredKeys(kvs, i - 1, now)), k);
        OneMoreElement(ExpiredKeys(kvs, i - 1, now), k);
      } else {
        SplitLive(Scanned(kvs, i - 1), Seen(kvs, i - 1, now), Elements(ExpiredKeys(kvs, i - 1, now)), k, e);
        assert ExpiredKeys(kvs, i, now) == ExpiredKeys(kvs, i - 1, now);
      }
    }
  }

  lemma {:induction false} SplitSizes(kvs: seq<Listed>, m: map<ByteString, CacheEntry>, i: nat, now: int)
    requires i <= |kvs| && IsListing(kvs, m, [])
    ensures |ExpiredKeys(kvs, i, now)| + |Seen(kvs, i, now)| == i == |Scanned(kvs, i)|
  {
    if i > 0 {
      SplitSizes(kvs, m, i - 1, now);
      NextKeyIsNew(kvs, m, i - 1);
      NextIsNew(kvs, m, i - 1, now);
      hide *;
      ScannedNext(kvs, i);
      ExpiredNext(kvs, i, now);
      SeenNext(kvs, i, now);
    }
  }

  lemma ScannedNext(kvs: seq<Listed>, i: nat)
    requires 0 < i <= |kvs| && kvs[i - 1].0 !in Scanned(kvs, i - 1)
    ensures |Scanned(kvs, i)| == |Scanned(kvs, i - 1)| + 1
  {
  }

  lemma ExpiredNext(kvs: seq<Listed>, i: nat, now: int)
    requires 0 < i <= |kvs|
    ensures |ExpiredKeys(kvs, i, now)| == |ExpiredKeys(kvs, i - 1, now)| + if IsExpired(kvs[i - 1].1, now) then 1 else 0
  {
  }

  lemma SeenNext(kvs: seq<Listed>, i: nat, now: int)
    requires 0 < i <= |kvs| && kvs[i - 1].0 !in Seen(kvs, i - 1, now)
    ensures |Seen(kvs, i, now)| == |Seen(kvs, i - 1, now)| + if IsExpired(kvs[i - 1].1, now) then 0 else 1
  {
    if !IsExpired(kvs[i - 1].1, now) {
      OneMoreKey(Seen(kvs, i - 1, now), kvs[i - 1].0, kvs[i - 1].1);
    }
  }

  lemma {:induction false} LiveIsScanned(kvs: seq<Listed>, i: nat, now: int, k: ByteString)
    requires i <= |kvs| && k in Seen(kvs, i, now)
    ensures k in Scanned(kvs, i)
  {
    if i > 0 && k in Seen(kvs, i - 1, now) {
      LiveIsScanned(kvs, i - 1, now, k);
    }
  }

  lemma NextKeyIsNew(kvs: seq<Listed>, m: map<ByteString, CacheEntry>, i: nat)
    requires IsListing(kvs, m, []) && i < |kvs|
    ensures kvs[i].0 !in Scanned(kvs, i)
    ensures forall k :: k in Scanned(kvs, i) ==> Less(k, kvs[i].0)
  {
    ScannedAre(kvs, i);
    ListingDistinct(kvs, m, []);
  }

  lemma NextIsNew(kvs: seq<Listed>, m: map<ByteString, CacheEntry>, i: nat, now: int)
    requires IsListing(kvs, m, []) && i < |kvs|
    ensures kvs[i].0 !in Seen(kvs, i, now)
    ensures forall k :: k in Seen(kvs, i, now) ==> Less(k, kvs[i].0)
  {
    hide IsListing;
    NextKeyIsNew(kvs, m, i);
    forall k | k in Seen(kvs, i, now) ensures k in Scanned(kvs, i) { LiveIsScanned(kvs, i, now, k); }
  }

  lemma ListedValue(kvs: seq<Listed>, m: map<ByteString, CacheEntry>, i: nat)
    requires IsListing(kvs, m, []) && i < |kvs|
    ensures kvs[i].0 in m && m[kvs[i].0] == kvs[i].1
  {
  }

  lemma {:induction false} SeenValues(kvs: seq<Listed>, m: map<ByteString, CacheEntry>, i: nat, now: int)
    requires IsListing(kvs, m, []) && i <= |kvs|
    ensures forall k :: k in Seen(kvs, i, now) ==> k in m && Seen(kvs, i, now)[k] == m[k] && !IsExpired(m[k], now)
    ensures forall k :: k in ExpiredKeys(kvs, i, now) ==> k in m && IsExpired(m[k], now)
  {
    if i > 0 {
      SeenValues(kvs, m, i - 1, now);
      ListedValue(kvs, m, i - 1);
      hide IsListing;
    }
  }

  lemma AllScanned(kvs: seq<Listed>, m: map<ByteString, CacheEntry>)
    requires IsListing(kvs, m, [])
    ensures Scanned(kvs, |kvs|) == m.Keys
  {
    ScannedAre(kvs, |kvs|);
    forall k | k in m ensures k in Scanned(kvs, |kvs|) {
      assert [] <= k;
    }
  }

  /** After the whole scan, the live entries have been seen and the expired ones can be removed. */
  lemma AllSeen(kvs: seq<Listed>, m: map<ByteString, CacheEntry>, now: int)
    requires IsListing(kvs, m, [])
    ensures Seen(kvs, |kvs|, now) == Live(m, now)
    ensures m - Elements(ExpiredKeys(kvs, |kvs|, now)) == Live(m, now)
    ensures |ExpiredKeys(kvs, |kvs|, now)| == |m| - |Live(m, now)| && |kvs| == |m|
  {
    ListingSplits(kvs, m, |kvs|, now);
    SplitSizes(kvs, m, |kvs|, now);
    SeenValues(kvs, m, |kvs|, now);
    AllScanned(kvs, m);
    hide IsListing;
    SplitIsLive(m, Seen(kvs, |kvs|, now), ExpiredKeys(kvs, |kvs|, now), now);
    assert |m| == |m.Keys|;
  }

  lemma SplitIsLive(m: map<ByteString, CacheEntry>, live: map<ByteString, CacheEntry>, expired: seq<ByteString>, now: int)
    requires Splits(m.Keys, live, Elements(expired))
    requires forall k :: k in live ==> k in m && live[k] == m[k] && !IsExpired(m[k], now)
    requires forall k :: k in expired ==> k in m && IsExpired(m[k], now)
    ensures live == Live(m, now) == m - Elements(expired)
  {
    forall k ensures k in live <==> k in Live(m, now) {
      if k in m {
        assert k in live.Keys + Elements(expired);
      }
    }
  }

  /** The state of Get's loop: `best` is the answer for the entries seen so far. */
  ghost predicate BestSoFar(sim: Similarity, seen: map<ByteString, CacheEntry>, query: seq<real>, threshold: real,
                            best: Option<Hit>, bestScore: real)
  {
    && IsAnswer(sim, seen, query, threshold, best)
    && bestScore == (if best.Some? then best.value.score else threshold)
  }

  /** An entry behind all seen ones replaces the best exactly when it scores strictly higher. */
  lemma SeeOneMore(sim: Similarity, seen: map<ByteString, CacheEntry>, k: ByteString, e: CacheEntry, query: seq<real>,
                   threshold: real, best: Option<Hit>, bestScore: real)
    requires BestSoFar(sim, seen, query, threshold, best, bestScore)
    requires k !in seen && forall j :: j in seen ==> Less(j, k)
    ensures var score := sim(query, e.embedding);
            if score.Some? && score.value > bestScore
            then BestSoFar(sim, seen[k := e], query, threshold, Some(Hit(e, score.value)), score.value)
            else BestSoFar(sim, seen[k := e], query, threshold, best, bestScore)
  {
    var seen' := seen[k := e];
    forall j | j in seen ensures !Less(k, j) { LessAsymmetric(j, k); }
    LessIrreflexive(k);
    if sim(query, e.embedding).Some? && sim(query, e.embedding).value > bestScore {
      if best.Some? {
        var b :| IsBestKey(sim, seen, query, threshold, b) && best.value == Hit(seen[b], sim(query, seen[b].embedding).value);
      }
      assert IsBestKey(sim, seen', query, threshold, k);
    } else if best.Some? {
      var b :| IsBestKey(sim, seen, query, threshold, b) && best.value == Hit(seen[b], sim(query, seen[b].embedding).value);
      assert IsBestKey(sim, seen', query, threshold, b);
    }
  }

  // ---------------------------------------------------------------- the readers, on the fields

  /** Entries without a lifetime or a time never expire; the others last up to the end of their last
      second. */
  predicate Lasts(e: CacheEntry, now: int) {
    e.ttl <= 0 || e.timestamp <= 0 || now <= e.timestamp + e.ttl
  }

  lemma LiveOnFields(m: map<ByteString, CacheEntry>, now: int)
    ensures Live(m, now) == map k | k in m && Lasts(m[k], now) :: m[k]
  {
  }

  /** Get returns an unexpired entry with its score, above the threshold and as high as any; of equally
      high ones it returns the first in key order. */
  ghost predicate FoundOnFields(sim: Similarity, m: map<ByteString, CacheEntry>, query: seq<real>, threshold: real,
                                now: int, r: Option<Hit>)
  {
    && (r.Some? ==>
          exists k :: && k in m && Lasts(m[k], now) && r.value.entry == m[k]
                      && sim(query, m[k].embedding) == Some(r.value.score) && r.value.score > threshold
                      && forall j :: j in m && Lasts(m[j], now) && Less(j, k) && sim(query, m[j].embedding).Some? ==>
                           sim(query, m[j].embedding).value < r.value.score)
    && forall k :: k in m && Lasts(m[k], now) && sim(query, m[k].embedding).Some? ==>
         var score := sim(query, m[k].embedding).value;
         score <= threshold || (r.Some? && score <= r.value.score)
  }

  lemma AnswerOnFields(sim: Similarity, m: map<ByteString, CacheEntry>, query: seq<real>, threshold: real, now: int,
                       r: Option<Hit>)
    requires IsAnswer(sim, Live(m, now), query, threshold, r)
    ensures FoundOnFields(sim, m, query, threshold, now, r)
  {
    var live := Live(m, now);
    LiveOnFields(m, now);
    assert forall k :: k in m && Lasts(m[k], now) ==> k in live && live[k] == m[k];
    hide Live;
    hide Lasts;
    if r.Some? {
      var b :| IsBestKey(sim, live, query, threshold, b) && r.value == Hit(live[b], sim(query, live[b].embedding).value);
      assert b in m && Lasts(m[b], now) && live[b] == m[b];
    }
  }

  /** The report counts the unexpired entries, and its rate is the share of hits in all lookups. */
  ghost predicate ReportOnFields(m: map<ByteString, CacheEntry>, hits: int, misses: int, now: int, stats: CacheStats) {
    && stats.hits == hits && stats.misses == misses
    && (hits + misses > 0 ==> stats.hitRate * (hits + misses) as real == hits as real)
    && (hits + misses <= 0 ==> stats.hitRate == 0.0)
    && var seen := map k | k in m && Lasts(m[k], now) :: m[k];
       stats.count == |seen| && stats.memoryUsage == Sum(seen, SizeOf())
  }

  lemma StatsOnFields(m: map<ByteString, CacheEntry>, hits: int, misses: int, now: int)
    ensures ReportOnFields(m, hits, misses, now, StatsOf(Live(m, now), hits, misses))
  {
    LiveOnFields(m, now);
    if hits + misses > 0 {
      RateTimesTotal(hits as real, (hits + misses) as real);
    }
  }

  /** A new entry adds one to the count and its size to the memory of every report while it lasts. */
  lemma PutAddsSize(m: map<ByteString, CacheEntry>, k: ByteString, e: CacheEntry, hits: int, misses: int, now: int)
    requires k !in m
    ensures var before, after := StatsOf(Live(m, now), hits, misses), StatsOf(Live(m[k := e], now), hits, misses);
            && after.count == before.count + (if Lasts(e, now) then 1 else 0)
            && after.memoryUsage == before.memoryUsage + (if Lasts(e, now) then e.size else 0)
  {
    LiveAfterPut(m, k, e, now);
    hide Sum;
    if Lasts(e, now) {
      SumUpdate(Live(m, now), SizeOf(), k, e);
      OneMoreKey(Live(m, now), k, e);
    } else {
      assert Live(m, now) - {k} == Live(m, now);
    }
  }

  /** Where no other entry scores above the threshold, an entry put at time t is found until t + ttl and
      not later, and for ever if its ttl is not positive. */
  lemma PutIsFound(sim: Similarity, s: CacheState, key: ByteString, entry: CacheEntry, s1: CacheState,
                   query: seq<real>, threshold: real, now: int, s2: CacheState, out: Output)
    requires Step(sim, s, Put(key, entry), s1, Nothing) && Step(sim, s1, Get(query, threshold, now), s2, out)
    requires entry.timestamp > 0 && sim(query, entry.embedding).Some? && sim(query, entry.embedding).value > threshold
    requires forall j :: j in s.entries && j != key && sim(query, s.entries[j].embedding).Some? ==>
               sim(query, s.entries[j].embedding).value <= threshold
    ensures out.Answer? && (out.hit.Some? <==> entry.ttl <= 0 || now <= entry.timestamp + entry.ttl)
    ensures out.hit.Some? ==>
              && out.hit.value.entry == entry && s2.hits == s.hits + 1 && s2.misses == s.misses
    ensures out.hit.None? ==> s2.hits == s.hits && s2.misses == s.misses + 1
  {
    AnswerOnFields(sim, s1.entries, query, threshold, now, out.hit);
    assert key in s1.entries && s1.entries[key] == entry;
    hide Live;
    hide IsAnswer;
  }

  class SemanticCache {
    const similarity: Similarity
    var entries: map<ByteString, CacheEntry>
    var hits: int
    var misses: int

    constructor (similarity: Similarity)
      ensures this.similarity == similarity && State() == CacheState(map[], 0, 0)
    {
      this.similarity := similarity;
      this.entries, this.hits, this.misses := map[], 0, 0;
    }

    ghost function State(): CacheState
      reads this
    {
      CacheState(entries, hits, misses)
    }

    method Put(key: ByteString, value: string, embedding: seq<real>, ttlSeconds: int, metadata: string, size: nat, now: int)
      modifies this`entries
      ensures var entry := CacheEntry(value, embedding, now, ttlSeconds, metadata, size);
              && Step(similarity, old(State()), Op.Put(key, entry), State(), Nothing)
              && entries == old(entries)[key := entry]
    {
      entries := entries[key := CacheEntry(value, embedding, now, ttlSeconds, metadata, size)];
    }

    method Get(query: seq<real>, threshold: real, now: int) returns (best: Option<Hit>)
      modifies this`hits, this`misses
      ensures Step(similarity, old(State()), Op.Get(query, threshold, now), State(), Answer(best))
      ensures FoundOnFields(similarity, entries, query, threshold, now, best)
      ensures hits == old(hits) + (if best.Some? then 1 else 0) && misses == old(misses) + if best.Some? then 0 else 1
    {
      best := Lookup(query, threshold, now);
      if best.Some? {
        hits := hits + 1;
      } else {
        misses := misses + 1;
      }
    }

    /** Get's scan: the running best starts at the threshold and only a higher score replaces it. */
    method Lookup(query: seq<real>, threshold: real, now: int) returns (best: Option<Hit>)
      ensures IsAnswer(similarity, Live(entries, now), query, threshold, best)
      ensures FoundOnFields(similarity, entries, query, threshold, now, best)
    {
      hide IsAnswer;
      hide IsListing;
      hide FoundOnFields;
      var kvs := ScanPrefix(entries, []);
      best := None;
      var bestScore := threshold;
      NothingSeen(query, threshold);
      for i := 0 to |kvs|
        invariant BestSoFar(similarity, Seen(kvs, i, now), query, threshold, best, bestScore)
      {
        NextIsNew(kvs, entries, i, now);
        var e := kvs[i].1;
        if e.ttl > 0 && e.timestamp > 0 && now > e.timestamp + e.ttl {
          continue;
        }
        SeeOneMore(similarity, Seen(kvs, i, now), kvs[i].0, e, query, threshold, best, bestScore);
        var score := similarity(query, e.embedding);
        if score.Some? && score.value > bestScore {
          bestScore := score.value;
          best := Some(Hit(e, score.value));
        }
      }
      AllSeen(kvs, entries, now);
      AnswerOnFields(similarity, entries, query, threshold, now, best);
    }

    lemma NothingSeen(query: seq<real>, threshold: real)
      ensures BestSoFar(similarity, map[], query, threshold, None, threshold)
    {
    }

    method Delete(key: ByteString)
      modifies this`entries
      ensures Step(similarity, old(State()), Op.Delete(key), State(), Nothing)
      ensures entries == old(entries) - {key}
    {
      entries := entries - {key};
    }

    method DeleteAll(keys: seq<ByteString>) returns (deleted: nat)
      modifies this`entries
      ensures entries == old(entries) - Elements(keys)
      ensures deleted == |keys|
    {
      deleted := 0;
      for i := 0 to |keys|
        invariant deleted == i && entries == old(entries) - Elements(keys[..i])
      {
        assert keys[..i + 1] == keys[..i] + [keys[i]];
        entries := entries - {keys[i]};
        deleted := deleted + 1;
      }
      assert keys[..|keys|] == keys;
    }

    method Clear() returns (deleted: nat)
      modifies this
      ensures Step(similarity, old(State()), Op.Clear, State(), Removed(deleted))
      ensures entries == map[] && hits == 0 && misses == 0 && deleted == |old(entries)|
    {
      hide IsListing;
      hide Elements;
      hide Scanned;
      var kvs := ScanPrefix(entries, []);
      var toDelete := CollectKeys(kvs);
      EverythingCollected(kvs, entries, toDelete);
      StepOfClear(similarity, State());
      hide Step;
      deleted := DeleteAll(toDelete);
      hits, misses := 0, 0;
    }

    method Stats(now: int) returns (stats: CacheStats)
      ensures Step(similarity, old(State()), Op.GetStats(now), State(), Report(stats))
      ensures ReportOnFields(entries, hits, misses, now, stats)
    {
      hide Seen;
      hide Live;
      hide Sum;
      hide IsListing;
      hide ReportOnFields;
      hide Step;
      var kvs := ScanPrefix(entries, []);
      var count, memoryUsage := 0, 0;
      NothingCounted(kvs, now);
      for i := 0 to |kvs|
        invariant count == |Seen(kvs, i, now)| && memoryUsage == Sum(Seen(kvs, i, now), SizeOf())
      {
        CountOneMore(kvs, entries, i, now);
        var e := kvs[i].1;
        if e.ttl > 0 && e.timestamp > 0 && now > e.timestamp + e.ttl {
          continue;
        }
        count := count + 1;
        memoryUsage := memoryUsage + e.size;
      }
      AllSeen(kvs, entries, now);
      var total := hits + misses;
      var hitRate := 0.0;
      if total > 0 {
        hitRate := hits as real / total as real;
      }
      stats := CacheStats(count, hits, misses, hitRate, memoryUsage);
      StepOfStats(similarity, State(), now);
      StatsOnFields(entries, hits, misses, now);
    }

    method PurgeExpired(now: int) returns (purged: nat)
      modifies this`entries
      ensures Step(similarity, old(State()), Op.PurgeExpired(now), State(), Removed(purged))
      ensures entries == map k | k in old(entries) && Lasts(old(entries)[k], now) :: old(entries)[k]
      ensures purged == |old(entries)| - |entries|
    {
      hide IsListing;
      hide Elements;
      hide Live;
      var kvs := ScanPrefix(entries, []);
      var toDelete := CollectExpired(kvs, now);
      AllSeen(kvs, entries, now);
      StepOfPurge(similarity, State(), now);
      LiveOnFields(entries, now);
      hide Lasts;
      hide Step;
      purged := DeleteAll(toDelete);
    }
  }

  lemma NothingCounted(kvs: seq<Listed>, now: int)
    ensures |Seen(kvs, 0, now)| == 0 == Sum(Seen(kvs, 0, now), SizeOf())
  {
  }

  lemma CountOneMore(kvs: seq<Listed>, m: map<ByteString, CacheEntry>, i: nat, now: int)
    requires IsListing(kvs, m, []) && i < |kvs|
    ensures var seen, seen', e := Seen(kvs, i, now), Seen(kvs, i + 1, now), kvs[i].1;
            if IsExpired(e, now) then seen' == seen
            else |seen'| == |seen| + 1 && Sum(seen', SizeOf()) == Sum(seen, SizeOf()) + e.size
  {
    NextIsNew(kvs, m, i, now);
    hide IsListing;
    hide Sum;
    if !IsExpired(kvs[i].1, now) {
      SumUpdate(Seen(kvs, i, now), SizeOf(), kvs[i].0, kvs[i].1);
      OneMoreKey(Seen(kvs, i, now), kvs[i].0, kvs[i].1);
    }
  }

  lemma RateTimesTotal(n: real, d: real)
    requires d > 0.0
    ensures n / d * d == n
  {
  }

  lemma EverythingCollected(kvs: seq<Listed>, m: map<ByteString, CacheEntry>, keys: seq<ByteString>)
    requires IsListing(kvs, m, []) && |keys| == |kvs| && Elements(keys) == Scanned(kvs, |kvs|)
    ensures m - Elements(keys) == map[] && |keys| == |m|
  {
    AllScanned(kvs, m);
    AllSeen(kvs, m, 0);
  }

  method CollectKeys(kvs: seq<Listed>) returns (toDelete: seq<ByteString>)
    ensures |toDelete| == |kvs| && Elements(toDelete) == Scanned(kvs, |kvs|)
  {
    toDelete := [];
    for i := 0 to |kvs|
      invariant |toDelete| == i && Elements(toDelete) == Scanned(kvs, i)
    {
      OneMoreElement(toDelete, kvs[i].0);
      toDelete := toDelete + [kvs[i].0];
    }
  }

  method CollectExpired(kvs: seq<Listed>, now: int) returns (toDelete: seq<ByteString>)
    ensures toDelete == ExpiredKeys(kvs, |kvs|, now)
  {
    toDelete := [];
    for i := 0 to |kvs|
      invariant toDelete == ExpiredKeys(kvs, i, now)
    {
      var e := kvs[i].1;
      if e.ttl > 0 && e.timestamp > 0 && now > e.timestamp + e.ttl {
        toDelete := toDelete + [kvs[i].0];
      }
    }
  }

  lemma OneMoreKey(m: map<ByteString, CacheEntry>, k: ByteString, e: CacheEntry)
    requires k !in m
    ensures |m[k := e]| == |m| + 1
  {
    assert m[k := e].Keys == m.Keys + {k};
    assert |m[k := e]| == |m[k := e].Keys| && |m| == |m.Keys|;
  }
}
