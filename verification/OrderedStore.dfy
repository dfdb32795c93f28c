/** The abstract ordered key-value store behind the queue and the caches: a finite map whose prefix
    scans yield entries in ascending byte order of their keys. */
module OrderedStore {
  import opened Bytes

  type Entry<V> = (ByteString, V)

  /** What a prefix scan returns: every entry under the prefix, once, in ascending key order. */
  ghost predicate IsListing<V>(kvs: seq<Entry<V>>, m: map<ByteString, V>, prefix: ByteString) {
    && (forall i, j :: 0 <= i < j < |kvs| ==> Less(kvs[i].0, kvs[j].0))
    && (forall i :: 0 <= i < |kvs| ==> kvs[i].0 in m && prefix <= kvs[i].0 && m[kvs[i].0] == kvs[i].1)
    && (forall k :: k in m && prefix <= k ==> exists i :: 0 <= i < |kvs| && kvs[i].0 == k)
  }

  lemma ListingDistinct<V>(kvs: seq<Entry<V>>, m: map<ByteString, V>, prefix: ByteString)
    requires IsListing(kvs, m, prefix)
    ensures forall i, j :: 0 <= i < j < |kvs| ==> kvs[i].0 != kvs[j].0
  {
    forall i, j | 0 <= i < j < |kvs| ensures kvs[i].0 != kvs[j].0 { LessAsymmetric(kvs[i].0, kvs[j].0); }
  }

  /** The first listed key of a set of keys is the least of them. */
  lemma FirstInListing<V>(kvs: seq<Entry<V>>, m: map<ByteString, V>, prefix: ByteString, keys: set<ByteString>, i: nat)
    requires IsListing(kvs, m, prefix)
    requires forall k :: k in keys ==> k in m && prefix <= k
    requires i <= |kvs| && forall j :: 0 <= j < i ==> kvs[j].0 !in keys
    ensures i < |kvs| && kvs[i].0 in keys ==> keys != {} && Least(keys) == kvs[i].0
    ensures i == |kvs| ==> keys == {}
  {
    forall k | k in keys ensures i < |kvs| && (k == kvs[i].0 || Less(kvs[i].0, k)) {
      var j :| 0 <= j < |kvs| && kvs[j].0 == k;
    }
    if i < |kvs| && kvs[i].0 in keys {
      LeastIsUnique(keys, kvs[i].0);
    }
  }

  /** The keys of a list, as a set. */
  ghost function Elements(keys: seq<ByteString>): set<ByteString> {
    set k | k in keys
  }

  method FindLeast(keys: set<ByteString>) returns (k: ByteString)
    requires keys != {}
    ensures k in keys && forall k' :: k' in keys ==> k' == k || Less(k, k')
  {
    k :| k in keys;
    var left := keys - {k};
    while left != {}
      invariant left <= keys && k in keys
      invariant forall k' :: k' in keys && k' !in left ==> k' == k || Less(k, k')
      decreases left
    {
      var x :| x in left;
      LessTotal(x, k);
      if Less(x, k) {
        forall k' | k' in keys && k' !in left && k' != k ensures Less(x, k') { LessTransitive(x, k, k'); }
        k := x;
      }
      left := left - {x};
    }
  }

  method ScanPrefix<V>(m: map<ByteString, V>, prefix: ByteString) returns (kvs: seq<Entry<V>>)
    ensures IsListing(kvs, m, prefix)
  {
    var left := set k | k in m && prefix <= k;
    kvs := [];
    while left != {}
      invariant forall k :: k in left ==> k in m && prefix <= k
      invariant forall i, j :: 0 <= i < j < |kvs| ==> Less(kvs[i].0, kvs[j].0)
      invariant forall i, k :: 0 <= i < |kvs| && k in left ==> Less(kvs[i].0, k)
      invariant forall i :: 0 <= i < |kvs| ==> kvs[i].0 in m && prefix <= kvs[i].0 && m[kvs[i].0] == kvs[i].1
      invariant forall k :: k in m && prefix <= k && k !in left ==> exists i :: 0 <= i < |kvs| && kvs[i].0 == k
      decreases left
    {
      var k := FindLeast(left);
      ghost var before := kvs;
      kvs := kvs + [(k, m[k])];
      assert kvs[|before|].0 == k;
      assert forall i :: 0 <= i < |before| ==> kvs[i] == before[i];
      left := left - {k};
    }
  }
}
