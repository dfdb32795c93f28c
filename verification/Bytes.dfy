/** Byte strings: lexicographic order (the order of `bytes.Compare` and of the store's scans)
    and the fixed-width big- and little-endian integers of Go's `encoding/binary`. */
module Bytes {

  type Byte = b: int | 0 <= b < 256

  /** A Go `[]byte` or `string`, read as a value. */
  type ByteString = seq<Byte>

  const SLASH: Byte := 0x2F

  /** The bytes of an ASCII literal. */
  function Ascii(s: string): ByteString
    requires forall i :: 0 <= i < |s| ==> s[i] < 128 as char
  {
    seq(|s|, i requires 0 <= i < |s| => s[i] as int)
  }

  // ---------------------------------------------------------------- lexicographic order

  predicate Less(a: ByteString, b: ByteString) {
    && b != []
    && (a == [] || a[0] < b[0] || (a[0] == b[0] && Less(a[1..], b[1..])))
  }

  lemma {:induction false} LessIrreflexive(a: ByteString)
    ensures !Less(a, a)
  {
    if a != [] {
      LessIrreflexive(a[1..]);
    }
  }

  lemma {:induction false} LessTotal(a: ByteString, b: ByteString)
    ensures Less(a, b) || Less(b, a) || a == b
  {
    if a != [] && b != [] && a[0] == b[0] {
      LessTotal(a[1..], b[1..]);
      assert a == [a[0]] + a[1..] && b == [b[0]] + b[1..];
    }
  }

  lemma {:induction false} LessTransitive(a: ByteString, b: ByteString, c: ByteString)
    requires Less(a, b) && Less(b, c)
    ensures Less(a, c)
  {
    if a != [] && a[0] == b[0] == c[0] {
      LessTransitive(a[1..], b[1..], c[1..]);
    }
  }

  lemma LessAsymmetric(a: ByteString, b: ByteString)
    requires Less(a, b)
    ensures !Less(b, a) && a != b
  {
    LessIrreflexive(a);
    if Less(b, a) {
      LessTransitive(a, b, a);
    }
  }

  /** Behind heads of equal length the tails only decide when the heads agree. */
  lemma {:induction false} LessConcat(a: ByteString, b: ByteString, x: ByteString, y: ByteString)
    requires |a| == |b|
    ensures Less(a + x, b + y) <==> Less(a, b) || (a == b && Less(x, y))
  {
    if a == [] {
      assert a + x == x && b + y == y;
    } else {
      assert (a + x)[1..] == a[1..] + x && (b + y)[1..] == b[1..] + y;
      LessConcat(a[1..], b[1..], x, y);
      assert a == [a[0]] + a[1..] && b == [b[0]] + b[1..];
    }
  }

  /** The first key that a scan over `keys` meets. */
  ghost function Least(keys: set<ByteString>): (r: ByteString)
    requires keys != {}
    ensures r in keys
    ensures forall k :: k in keys ==> k == r || Less(r, k)
  {
    var x :| x in keys;
    if keys == {x} then x else
      var m := Least(keys - {x});
      LessTotal(x, m);
      assert forall k :: k in keys ==> k == x || k in keys - {x};
      assert Less(x, m) ==> forall k :: k in keys ==> k == x || Less(x, k) by {
        forall k | Less(x, m) && k in keys && k != x && k != m ensures Less(x, k) { LessTransitive(x, m, k); }
      }
      if Less(x, m) then x else m
  }

  lemma LeastIsUnique(keys: set<ByteString>, r: ByteString)
    requires r in keys && forall k :: k in keys ==> k == r || Less(r, k)
    ensures r == Least(keys)
  {
    if r != Least(keys) {
      LessAsymmetric(r, Least(keys));
    }
  }

  // ---------------------------------------------------------------- fixed-width integers

  /** 256 to the power n: how many values n bytes can hold. */
  function Pow256(n: nat): (p: nat)
    ensures p > 0
  {
    if n == 0 then 1 else 256 * Pow256(n - 1)
  }

  lemma PowWidths()
    ensures Pow256(2) == 0x1_0000
    ensures Pow256(4) == 0x1_0000_0000
    ensures Pow256(8) == 0x1_0000_0000_0000_0000
  {
    assert Pow256(4) == 256 * 256 * Pow256(2);
    assert Pow256(6) == 256 * 256 * Pow256(4);
    assert Pow256(8) == 256 * 256 * Pow256(6);
  }

  lemma DivMod256(q: nat, d: Byte)
    ensures (d + 256 * q) / 256 == q && (d + 256 * q) % 256 == d
  {
  }

  function ToBE(v: nat, n: nat): (r: ByteString)
    requires v < Pow256(n)
    ensures |r| == n
  {
    if n == 0 then [] else ToBE(v / 256, n - 1) + [v % 256]
  }

  function FromBE(b: ByteString): (v: nat)
    ensures v < Pow256(|b|)
  {
    if b == [] then 0 else FromBE(b[..|b| - 1]) * 256 + b[|b| - 1]
  }

  lemma {:induction false} FromToBE(v: nat, n: nat)
    requires v < Pow256(n)
    ensures FromBE(ToBE(v, n)) == v
  {
    if n > 0 {
      FromToBE(v / 256, n - 1);
      var r := ToBE(v, n);
      assert r[..n - 1] == ToBE(v / 256, n - 1);
    }
  }

  lemma {:induction false} ToFromBE(b: ByteString)
    ensures ToBE(FromBE(b), |b|) == b
  {
    if b != [] {
      ToFromBE(b[..|b| - 1]);
      DivMod256(FromBE(b[..|b| - 1]), b[|b| - 1]);
      assert b == b[..|b| - 1] + [b[|b| - 1]];
    }
  }

  /** Big-endian encoding turns numeric order into byte order. */
  lemma {:induction false} BigEndianOrder(v: nat, w: nat, n: nat)
    requires v < Pow256(n) && w < Pow256(n)
    ensures Less(ToBE(v, n), ToBE(w, n)) <==> v < w
    ensures ToBE(v, n) == ToBE(w, n) <==> v == w
  {
    FromToBE(v, n);
    FromToBE(w, n);
    if n > 0 {
      BigEndianOrder(v / 256, w / 256, n - 1);
      LessConcat(ToBE(v / 256, n - 1), ToBE(w / 256, n - 1), [v % 256], [w % 256]);
    }
  }

  function ToLE(v: nat, n: nat): (r: ByteString)
    requires v < Pow256(n)
    ensures |r| == n
  {
    if n == 0 then [] else [v % 256] + ToLE(v / 256, n - 1)
  }

  lemma DivideTwice(v: nat, p: nat)
    requires p > 0
    ensures v / 256 / p == v / (256 * p)
  {
    var q, r := v / 256, v % 256;
    var s, t := q / p, q % p;
    assert v == 256 * q + r && q == p * s + t;
    assert v == (256 * p) * s + (256 * t + r);
    assert 256 * t + r < 256 * p;
    QuotientIs(v, 256 * p, s, 256 * t + r);
  }

  lemma AtLeastOnce(d: nat, k: int)
    requires k >= 1
    ensures d * k >= d
  {
  }

  lemma SameQuotient(d: nat, q: int, r: int, q': int, r': int)
    requires d * q + r == d * q' + r' && 0 <= r < d && 0 <= r' < d
    ensures q == q'
  {
    if q > q' {
      assert d * (q - q') == r' - r;
      AtLeastOnce(d, q - q');
    } else if q < q' {
      assert d * (q' - q) == r - r';
      AtLeastOnce(d, q' - q);
    }
  }

  lemma QuotientIs(v: nat, d: nat, q: nat, r: nat)
    requires d > 0 && v == d * q + r && r < d
    ensures v / d == q
  {
    assert v == d * (v / d) + v % d;
    SameQuotient(d, q, r, v / d, v % d);
  }

  /** Little-endian: byte i is the digit of weight 256 to the power i. */
  lemma {:induction false} LittleEndianByte(v: nat, n: nat, i: nat)
    requires v < Pow256(n) && i < n
    ensures ToLE(v, n)[i] == v / Pow256(i) % 256
    decreases n
  {
    if i > 0 {
      LittleEndianByte(v / 256, n - 1, i - 1);
      DivideTwice(v, Pow256(i - 1));
    }
  }

  function FromLE(b: ByteString): (v: nat)
    ensures v < Pow256(|b|)
  {
    if b == [] then 0 else b[0] + 256 * FromLE(b[1..])
  }

  lemma {:induction false} FromToLE(v: nat, n: nat)
    requires v < Pow256(n)
    ensures FromLE(ToLE(v, n)) == v
  {
    if n > 0 {
      FromToLE(v / 256, n - 1);
      assert ToLE(v, n)[1..] == ToLE(v / 256, n - 1);
    }
  }

  lemma {:induction false} ToFromLE(b: ByteString)
    ensures ToLE(FromLE(b), |b|) == b
  {
    if b != [] {
      ToFromLE(b[1..]);
      DivMod256(FromLE(b[1..]), b[0]);
      assert b == [b[0]] + b[1..];
    }
  }
}
