/** The client's similarity search (client.go, lines 768-865), over exact reals: a square root by ten
    Newton steps, the cosine built on it, and the cache lookup that relies on the cosine. */
module Similarity {
  import opened Options

  // ---------------------------------------------------------------- the Newton square root

  function NewtonStep(x: real, z: real): real
    requires z != 0.0
  {
    z - (z * z - x) / (2.0 * z)
  }

  /** Half the relative residual: the correction that one step subtracts. */
  lemma StepResidual(x: real, z: real) returns (e: real)
    requires x > 0.0 && z > 0.0
    ensures e * (2.0 * z) == z * z - x
    ensures NewtonStep(x, z) == z - e
    ensures NewtonStep(x, z) > 0.0
    ensures NewtonStep(x, z) * NewtonStep(x, z) - x == e * e
  {
    e := (z * z - x) / (2.0 * z);
    var y := z - e;
    assert e * (2.0 * z) == z * z - x;
    assert y * (2.0 * z) == z * z + x by {
      assert y * (2.0 * z) == z * (2.0 * z) - e * (2.0 * z);
    }
    PositiveFactor(y, 2.0 * z);
    assert y * y == z * z - e * (2.0 * z) + e * e;
  }

  lemma PositiveFactor(y: real, w: real)
    requires w > 0.0 && y * w > 0.0
    ensures y > 0.0
  {
  }

  /** Above the root, a step quarters the residual z*z - x. */
  lemma StepQuarters(x: real, z: real)
    requires x > 0.0 && z > 0.0 && z * z >= x
    ensures var y := NewtonStep(x, z);
            y > 0.0 && y * y >= x && 4.0 * (y * y - x) <= z * z - x
  {
    var e := StepResidual(x, z);
    var d, s := z * z - x, z * z;
    assert (e * e) * (4.0 * s) == d * d by {
      assert (e * (2.0 * z)) * (e * (2.0 * z)) == d * d;
    }
    SquareBound(e * e, d, s);
  }

  lemma SquareBound(q: real, d: real, s: real)
    requires s > 0.0 && 0.0 <= d <= s && q * (4.0 * s) == d * d
    ensures 4.0 * q <= d
  {
    assert d * d <= d * s;
    CancelFactor(4.0 * q, d, s);
  }

  lemma CancelFactor(a: real, b: real, s: real)
    requires s > 0.0 && a * s <= b * s
    ensures a <= b
  {
    assert a > b ==> (a - b) * s > 0.0;
  }

  /** Squaring keeps the order of non-negative numbers, read backwards. */
  lemma SquareRootMonotone(a: real, b: real)
    requires b >= 0.0 && a * a <= b * b
    ensures a <= b
  {
    if a > b {
      SquareStrict(a, b);
    }
  }

  lemma SquareStrict(a: real, b: real)
    requires a > b >= 0.0
    ensures a * a > b * b
  {
    PositiveProduct(a - b, a + b);
    assert (a - b) * (a + b) == a * a - b * b;
  }

  lemma PositiveProduct(a: real, b: real)
    requires a > 0.0 && b > 0.0
    ensures a * b > 0.0
  {
  }

  /** The first step, from x / 2, lands at distance exactly (x/4 - 1)^2 above the root. */
  lemma FirstStep(x: real)
    requires x > 0.0
    ensures var y := NewtonStep(x, x / 2.0);
            y > 0.0 && y * y - x == (x / 4.0 - 1.0) * (x / 4.0 - 1.0)
  {
    var e := StepResidual(x, x / 2.0);
    var h, q := x / 2.0, x / 4.0 - 1.0;
    assert h * h == (x / 4.0) * x;
    assert e * (2.0 * h) == h * h - x;
    assert e * x == q * x by {
      assert 2.0 * h == x;
      assert (x / 4.0) * x - x == q * x;
    }
    CancelFactor(e, q, x);
    CancelFactor(q, e, x);
  }

  lemma StepPositive(x: real, z: real)
    requires x > 0.0 && z > 0.0
    ensures NewtonStep(x, z) > 0.0
  {
    var _ := StepResidual(x, z);
  }

  ghost function Newton(x: real, z: real, n: nat): real
    requires x > 0.0 && z > 0.0
    decreases n
  {
    if n == 0 then z else
      StepPositive(x, z);
      Newton(x, NewtonStep(x, z), n - 1)
  }

  lemma NewtonUnfolds(x: real, z: real, n: nat)
    requires x > 0.0 && z > 0.0 && n > 0
    ensures NewtonStep(x, z) > 0.0 && Newton(x, z, n) == Newton(x, NewtonStep(x, z), n - 1)
  {
    StepPositive(x, z);
  }

  lemma NewtonNone(x: real, z: real)
    requires x > 0.0 && z > 0.0
    ensures Newton(x, z, 0) == z
  {
  }

  /** What the source's sqrt returns. */
  ghost function Root(x: real): real {
    if x <= 0.0 then 0.0 else Newton(x, x / 2.0, 10)
  }

  function Pow4(n: nat): real {
    if n == 0 then 1.0 else 4.0 * Pow4(n - 1)
  }

  lemma {:induction false} NewtonContracts(x: real, z: real, n: nat)
    requires x > 0.0 && z > 0.0 && z * z >= x
    ensures var y := Newton(x, z, n);
            y > 0.0 && y * y >= x && Pow4(n) * (y * y - x) <= z * z - x
    decreases n
  {
    if n > 0 {
      StepQuarters(x, z);
      NewtonContracts(x, NewtonStep(x, z), n - 1);
    }
  }

  /** Ten steps never undershoot, and overshoot by at most (x/4 - 1)^2 / 4^9. */
  lemma RootBounds(x: real)
    requires x > 0.0
    ensures Root(x) > 0.0
    ensures Root(x) * Root(x) >= x
    ensures 262144.0 * (Root(x) * Root(x) - x) <= (x / 4.0 - 1.0) * (x / 4.0 - 1.0)
  {
    hide Newton;
    FirstStep(x);
    var y := NewtonStep(x, x / 2.0);
    NewtonContracts(x, y, 9);
    NewtonUnfolds(x, x / 2.0, 10);
    assert Pow4(9) == 262144.0 by {
      assert Pow4(3) == 64.0;
      assert Pow4(6) == 64.0 * Pow4(3);
      assert Pow4(9) == 64.0 * Pow4(6);
    }
  }

  lemma RootAbove(x: real)
    ensures x > 0.0 ==> Root(x) > 0.0 && Root(x) * Root(x) >= x
    ensures x <= 0.0 ==> Root(x) == 0.0
  {
    hide Newton;
    if x > 0.0 {
      RootBounds(x);
    }
  }

  /** An exact root is a fixed point of the iteration. */
  lemma {:induction false} NewtonFixed(x: real, z: real, n: nat)
    requires x > 0.0 && z > 0.0 && z * z == x
    ensures Newton(x, z, n) == z
  {
    if n > 0 {
      assert NewtonStep(x, z) == z;
      NewtonFixed(x, z, n - 1);
    }
  }

  lemma ZeroProduct(a: real, b: real)
    ensures a * b == 0.0 <==> a == 0.0 || b == 0.0
  {
    var x, y := if a < 0.0 then -a else a, if b < 0.0 then -b else b;
    assert x * y == a * b || x * y == -(a * b);
    if x > 0.0 && y > 0.0 {
      PositiveProduct(x, y);
    }
  }

  lemma StepExactly(x: real, z: real)
    requires x > 0.0 && z > 0.0
    ensures NewtonStep(x, z) > 0.0
    ensures NewtonStep(x, z) * NewtonStep(x, z) == x <==> z * z == x
  {
    hide NewtonStep;
    var e := StepResidual(x, z);
    ZeroProduct(e, e);
    ZeroProduct(e, 2.0 * z);
  }

  /** No step makes an inexact root exact. */
  lemma {:induction false} NewtonExactly(x: real, z: real, n: nat)
    requires x > 0.0 && z > 0.0
    ensures Newton(x, z, n) * Newton(x, z, n) == x <==> z * z == x
    decreases n
  {
    if n > 0 {
      hide Newton;
      hide NewtonStep;
      StepExactly(x, z);
      NewtonExactly(x, NewtonStep(x, z), n - 1);
      NewtonUnfolds(x, z, n);
    } else {
      NewtonNone(x, z);
    }
  }

  /** The only positive number whose root comes out exact is 4. */
  lemma RootExactly(x: real)
    requires x > 0.0
    ensures Root(x) * Root(x) == x <==> x == 4.0
  {
    hide Newton;
    NewtonExactly(x, x / 2.0, 10);
    var h := x / 2.0;
    assert h * h == x <==> (x - 4.0) * x == 0.0;
    ZeroProduct(x - 4.0, x);
  }

  function Pow(b: real, n: nat): real {
    if n == 0 then 1.0 else b * Pow(b, n - 1)
  }

  lemma {:induction false} PowProduct(a: real, b: real, n: nat)
    ensures Pow(a * b, n) == Pow(a, n) * Pow(b, n)
  {
    if n > 0 {
      PowProduct(a, b, n - 1);
      var p, q := Pow(a, n - 1), Pow(b, n - 1);
      assert (a * b) * (p * q) == (a * p) * (b * q);
    }
  }

  lemma {:induction false} PowSquare(a: real, n: nat)
    ensures Pow(a * a, n) == Pow(a, 2 * n)
  {
    if n > 0 {
      PowSquare(a, n - 1);
      assert Pow(a, 2 * n) == a * Pow(a, 2 * n - 1) == a * (a * Pow(a, 2 * n - 2));
    }
  }

  function Pow2(n: nat): nat {
    if n == 0 then 1 else 2 * Pow2(n - 1)
  }

  /** A step squares both distances, to the root and to its negative, and scales them alike. */
  lemma StepDistances(x: real, s: real, z: real)
    requires x > 0.0 && z > 0.0 && s * s == x
    ensures var y := NewtonStep(x, z);
            (y - s) * (2.0 * z) == (z - s) * (z - s) && (y + s) * (2.0 * z) == (z + s) * (z + s)
  {
    hide NewtonStep;
    var e := StepResidual(x, z);
    assert (z - s) * (z - s) == z * z - 2.0 * (s * z) + x;
    assert (z + s) * (z + s) == z * z + 2.0 * (s * z) + x;
    assert (z - e - s) * (2.0 * z) == 2.0 * (z * z) - e * (2.0 * z) - 2.0 * (s * z);
    assert (z - e + s) * (2.0 * z) == 2.0 * (z * z) - e * (2.0 * z) + 2.0 * (s * z);
  }

  lemma SquareLink(p: real, c: real, q: real, m: nat)
    requires p * c == q * q
    ensures Pow(q, 2 * m) == Pow(p, m) * Pow(c, m)
  {
    PowProduct(p, c, m);
    PowSquare(q, m);
  }

  lemma ScaledEquation(u: real, v: real, p: real, q: real, c: real)
    requires u * p == v * q
    ensures u * (p * c) == v * (q * c)
  {
    assert u * (p * c) == (u * p) * c && v * (q * c) == (v * q) * c;
  }

  /** The distances of r to the root and to its negative are in the ratio of those of z, raised to the power n. */
  ghost predicate InRatio(r: real, s: real, z: real, n: nat) {
    (r - s) * Pow(z + s, n) == (r + s) * Pow(z - s, n)
  }

  lemma RatioStart(s: real, z: real)
    ensures InRatio(z, s, z, 1)
  {
    assert Pow(z + s, 1) == (z + s) * Pow(z + s, 0) && Pow(z - s, 1) == (z - s) * Pow(z - s, 0);
    assert (z - s) * (z + s) == (z + s) * (z - s);
  }

  lemma RatioStep(r: real, s: real, y: real, z: real, m: nat)
    requires InRatio(r, s, y, m)
    requires (y - s) * (2.0 * z) == (z - s) * (z - s) && (y + s) * (2.0 * z) == (z + s) * (z + s)
    ensures InRatio(r, s, z, 2 * m)
  {
    SquareLink(y + s, 2.0 * z, z + s, m);
    SquareLink(y - s, 2.0 * z, z - s, m);
    hide Pow;
    ScaledEquation(r - s, r + s, Pow(y + s, m), Pow(y - s, m), Pow(2.0 * z, m));
  }

  /** Where n steps lead, in closed form. */
  lemma {:induction false} NewtonClosedForm(x: real, s: real, z: real, n: nat)
    requires x > 0.0 && z > 0.0 && s * s == x
    ensures InRatio(Newton(x, z, n), s, z, Pow2(n))
    decreases n
  {
    hide InRatio;
    if n == 0 {
      RatioStart(s, z);
    } else {
      hide Newton;
      hide NewtonStep;
      var y := NewtonStep(x, z);
      NewtonUnfolds(x, z, n);
      NewtonClosedForm(x, s, y, n - 1);
      StepDistances(x, s, z);
      RatioStep(Newton(x, z, n), s, y, z, Pow2(n - 1));
    }
  }

  /** The result is the one number whose distances to the true root and to its negative are in the ratio
      of those of x / 2, raised to the power 1024. */
  lemma RootClosedForm(x: real, s: real)
    requires x > 0.0 && s * s == x
    ensures (Root(x) - s) * Pow(x / 2.0 + s, 1024) == (Root(x) + s) * Pow(x / 2.0 - s, 1024)
  {
    hide Newton;
    hide Pow;
    assert Pow2(5) == 32 && Pow2(8) == 8 * Pow2(5) && Pow2(10) == 4 * Pow2(8);
    NewtonClosedForm(x, s, x / 2.0, 10);
  }

  method Sqrt(x: real) returns (z: real)
    ensures z == Root(x)
  {
    if x <= 0.0 {
      return 0.0;
    }
    z := x / 2.0;
    for i := 0 to 10
      invariant z > 0.0 && Newton(x, z, 10 - i) == Root(x)
    {
      StepPositive(x, z);
      z := z - (z * z - x) / (2.0 * z);
    }
  }

  // ---------------------------------------------------------------- cosine similarity

  ghost function Dot(a: seq<real>, b: seq<real>): real
    requires |a| == |b|
  {
    if a == [] then 0.0 else
      var n := |a| - 1;
      Dot(a[..n], b[..n]) + a[n] * b[n]
  }

  lemma {:induction false} DotSelfNonNegative(a: seq<real>)
    ensures Dot(a, a) >= 0.0
  {
    if a != [] {
      DotSelfNonNegative(a[..|a| - 1]);
    }
  }

  lemma DotLast(a: seq<real>, b: seq<real>)
    requires |a| == |b| && a != []
    ensures var n := |a| - 1; Dot(a, b) == Dot(a[..n], b[..n]) + a[n] * b[n]
  {
  }

  lemma DotNext(a: seq<real>, b: seq<real>, i: nat)
    requires |a| == |b| && i < |a|
    ensures Dot(a[..i + 1], b[..i + 1]) == Dot(a[..i], b[..i]) + a[i] * b[i]
  {
    assert a[..i + 1][..i] == a[..i] && b[..i + 1][..i] == b[..i];
    DotLast(a[..i + 1], b[..i + 1]);
  }

  lemma {:induction false} CauchySchwarz(a: seq<real>, b: seq<real>)
    requires |a| == |b|
    ensures Dot(a, b) * Dot(a, b) <= Dot(a, a) * Dot(b, b)
  {
    if a != [] {
      var n := |a| - 1;
      CauchySchwarz(a[..n], b[..n]);
      DotSelfNonNegative(a[..n]);
      DotSelfNonNegative(b[..n]);
      DotLast(a, b);
      DotLast(a, a);
      DotLast(b, b);
      hide Dot;
      CauchyStep(Dot(a[..n], b[..n]), Dot(a[..n], a[..n]), Dot(b[..n], b[..n]), a[n], b[n]);
    }
  }

  lemma CauchyStep(d: real, p: real, q: real, x: real, y: real)
    requires p >= 0.0 && q >= 0.0 && d * d <= p * q
    ensures (d + x * y) * (d + x * y) <= (p + x * x) * (q + y * y)
  {
    var u, v := p * (y * y), q * (x * x);
    var w := d * (x * y);
    assert w * w <= u * v by {
      var s := (x * y) * (x * y);
      assert s >= 0.0 && w * w == (d * d) * s;
      assert (d * d) * s <= (p * q) * s;
      assert u * v == (p * q) * s;
    }
    MeanBound(w, u, v);
    assert (d + x * y) * (d + x * y) == d * d + 2.0 * w + (x * y) * (x * y);
    assert (p + x * x) * (q + y * y) == p * q + u + v + (x * y) * (x * y);
  }

  /** The geometric mean is at most the arithmetic mean. */
  lemma MeanBound(w: real, u: real, v: real)
    requires u >= 0.0 && v >= 0.0 && w * w <= u * v
    ensures 2.0 * w <= u + v
  {
    assert (u - v) * (u - v) >= 0.0;
    assert (u + v) * (u + v) >= 4.0 * (u * v);
    SquareRootMonotone(2.0 * w, u + v);
  }

  /** The dot product is linear in each coordinate, and zero for the zero vector. */
  lemma {:induction false} DotRaised(a: seq<real>, b: seq<real>, i: nat, d: real)
    requires |a| == |b| && i < |a|
    ensures Dot(a[i := a[i] + d], b) == Dot(a, b) + d * b[i]
    decreases |a|
  {
    var n, c := |a| - 1, a[i := a[i] + d];
    DotLast(c, b);
    DotLast(a, b);
    hide Dot;
    if i < n {
      assert c[..n] == a[..n][i := a[i] + d] && c[n] == a[n];
      DotRaised(a[..n], b[..n], i, d);
    } else {
      assert c[..n] == a[..n];
      assert (a[n] + d) * b[n] == a[n] * b[n] + d * b[n];
    }
  }

  lemma {:induction false} DotZero(a: seq<real>, b: seq<real>)
    requires |a| == |b| && forall j :: 0 <= j < |a| ==> a[j] == 0.0
    ensures Dot(a, b) == 0.0
  {
    if a != [] {
      DotZero(a[..|a| - 1], b[..|a| - 1]);
    }
  }

  ghost function Cosine(a: seq<real>, b: seq<real>): real
    requires |a| == |b|
  {
    var za, zb := Root(Dot(a, a)), Root(Dot(b, b));
    if za == 0.0 || zb == 0.0 then 0.0 else Dot(a, b) / (za * zb)
  }

  lemma CosineIs(a: seq<real>, b: seq<real>)
    requires |a| == |b|
    ensures var za, zb := Root(Dot(a, a)), Root(Dot(b, b));
            Cosine(a, b) == if za == 0.0 || zb == 0.0 then 0.0 else Dot(a, b) / (za * zb)
  {
    hide Root;
    hide Dot;
  }

  /** The similarity is the dot product over both approximate norms, and zero for a zero vector. */
  lemma CosineScaled(a: seq<real>, b: seq<real>)
    requires |a| == |b|
    ensures Dot(a, a) > 0.0 && Dot(b, b) > 0.0 ==>
              Cosine(a, b) * (Root(Dot(a, a)) * Root(Dot(b, b))) == Dot(a, b)
    ensures Dot(a, a) <= 0.0 || Dot(b, b) <= 0.0 ==> Cosine(a, b) == 0.0
  {
    hide Dot;
    hide Root;
    var p, q := Dot(a, a), Dot(b, b);
    RootAbove(p);
    RootAbove(q);
    if p > 0.0 && q > 0.0 {
      var y, z := Root(p), Root(q);
      PositiveProduct(y, z);
      Requotient(Dot(a, b), y * z);
    }
  }

  lemma Requotient(d: real, w: real)
    requires w != 0.0
    ensures d / w * w == d
  {
  }

  /** Although the norms are only approximate, the similarity never leaves [-1, 1]: the approximation
      errs on the large side, and Cauchy-Schwarz does the rest. */
  lemma CosineBounded(a: seq<real>, b: seq<real>)
    requires |a| == |b|
    ensures -1.0 <= Cosine(a, b) <= 1.0
  {
    hide Root;
    hide Dot;
    var p, q, d := Dot(a, a), Dot(b, b), Dot(a, b);
    RootAbove(p);
    RootAbove(q);
    if p > 0.0 && q > 0.0 {
      CauchySchwarz(a, b);
      QuotientBounded(d, p, q, Root(p), Root(q));
    }
  }

  lemma QuotientBounded(d: real, p: real, q: real, y: real, z: real)
    requires p > 0.0 && q > 0.0 && y > 0.0 && z > 0.0
    requires y * y >= p && z * z >= q && d * d <= p * q
    ensures -1.0 <= d / (y * z) <= 1.0
  {
    var w := y * z;
    assert w * w >= d * d by {
      assert w * w == (y * y) * (z * z);
      assert (y * y) * (z * z) >= p * (z * z) >= p * q;
    }
    SquareRootMonotone(d, w);
    SquareRootMonotone(-d, w);
    var r := d / w;
    assert r * w == d;
    CancelFactor(r, 1.0, w);
    CancelFactor(-1.0, r, w);
  }

  function Negated(a: seq<real>): seq<real> {
    seq(|a|, i requires 0 <= i < |a| => -a[i])
  }

  lemma {:induction false} DotNegated(a: seq<real>)
    ensures Dot(a, Negated(a)) == -Dot(a, a) && Dot(Negated(a), Negated(a)) == Dot(a, a)
  {
    if a != [] {
      var n := |a| - 1;
      DotNegated(a[..n]);
      assert Negated(a)[..n] == Negated(a[..n]);
    }
  }

  lemma SquareOfSum(x: real, y: real)
    ensures x * x + 2.0 * (x * y) + y * y >= 0.0
    ensures x * x + 2.0 * (x * y) + y * y == 0.0 ==> y == -x
  {
    var s := x + y;
    assert s * s == x * x + 2.0 * (x * y) + y * y;
    assert s * s >= 0.0;
    ZeroProduct(s, s);
  }

  /** The squared norm of the sum of two vectors. */
  ghost function SumNorm(a: seq<real>, b: seq<real>): real
    requires |a| == |b|
  {
    Dot(a, a) + 2.0 * Dot(a, b) + Dot(b, b)
  }

  lemma SumNormLast(a: seq<real>, b: seq<real>)
    requires |a| == |b| && a != []
    ensures var n := |a| - 1;
            SumNorm(a, b) == SumNorm(a[..n], b[..n]) + (a[n] * a[n] + 2.0 * (a[n] * b[n]) + b[n] * b[n])
  {
  }

  /** Vectors that cancel are opposite. */
  lemma {:induction false} OppositeByNorms(a: seq<real>, b: seq<real>)
    requires |a| == |b|
    ensures SumNorm(a, b) >= 0.0
    ensures SumNorm(a, b) == 0.0 ==> b == Negated(a)
  {
    if a != [] {
      hide SumNorm;
      hide Negated;
      var n := |a| - 1;
      OppositeByNorms(a[..n], b[..n]);
      SquareOfSum(a[n], b[n]);
      SumNormLast(a, b);
      NegatedLast(a);
      assert b == b[..n] + [b[n]];
    }
  }

  lemma NegatedLast(a: seq<real>)
    requires a != []
    ensures Negated(a) == Negated(a[..|a| - 1]) + [-a[|a| - 1]]
  {
  }

  /** The bound of Cauchy and Schwarz is met through over-estimated norms only if neither is over-estimated. */
  lemma TightNorms(d: real, p: real, q: real, y: real, z: real)
    requires p > 0.0 && q > 0.0 && y > 0.0 && z > 0.0
    requires y * y >= p && z * z >= q && d * d <= p * q && d == -(y * z)
    ensures y * y == p && z * z == q
  {
    var u, v := y * y, z * z;
    assert d * d == u * v;
    assert u > p ==> (u - p) * v > 0.0;
    assert v > q ==> p * (v - q) > 0.0;
    assert (u - p) * v >= 0.0 && p * (v - q) >= 0.0;
    assert u * v - p * q == (u - p) * v + p * (v - q);
  }

  /** Exactly which vectors have similarity -1: opposite ones of squared norm 4. */
  lemma OppositeExactly(a: seq<real>, b: seq<real>)
    requires |a| == |b|
    ensures Cosine(a, b) == -1.0 <==> Dot(a, a) == 4.0 && b == Negated(a)
  {
    hide Root;
    hide Newton;
    hide Dot;
    hide Negated;
    var p, q, d := Dot(a, a), Dot(b, b), Dot(a, b);
    RootAbove(p);
    RootAbove(q);
    DotNegated(a);
    RootOfFour();
    if Cosine(a, b) == -1.0 {
      var y, z := Root(p), Root(q);
      QuotientIs(d, y * z);
      CauchySchwarz(a, b);
      TightNorms(d, p, q, y, z);
      RootExactly(p);
      RootExactly(q);
      SquareOfTwo(y);
      SquareOfTwo(z);
      OppositeByNorms(a, b);
    }
  }

  lemma RootOfFour()
    ensures Root(4.0) == 2.0
  {
    NewtonFixed(4.0, 2.0, 10);
  }

  lemma QuotientIs(d: real, w: real)
    requires w != 0.0 && d / w == -1.0
    ensures d == -w
  {
  }

  lemma SquareOfTwo(y: real)
    requires y > 0.0 && y * y == 4.0
    ensures y == 2.0
  {
    assert (y - 2.0) * (y + 2.0) == 0.0;
  }

  /** A non-zero vector is as similar to itself as the root is exact: with squared norm p the similarity
      is at least p / (p + (p/4 - 1)^2 / 4^9). */
  lemma SelfSimilarity(a: seq<real>)
    requires Dot(a, a) > 0.0
    ensures var p := Dot(a, a);
            Cosine(a, a) * (p + (p / 4.0 - 1.0) * (p / 4.0 - 1.0) / 262144.0) >= p
  {
    hide Newton;
    hide Dot;
    var p := Dot(a, a);
    RootBounds(p);
    var w := Root(p) * Root(p);
    var bound := p + (p / 4.0 - 1.0) * (p / 4.0 - 1.0) / 262144.0;
    assert w <= bound;
    var r := p / w;
    assert Cosine(a, a) == r && r * w == p && r >= 0.0;
    assert r * bound >= r * w;
  }

  /** A non-zero vector has similarity 1 to itself exactly when its squared norm is 4. All others fall
      short, so that a cached embedding can miss its own query at a threshold of 1. */
  lemma SelfSimilarityExactly(a: seq<real>)
    requires Dot(a, a) > 0.0
    ensures Cosine(a, a) == 1.0 <==> Dot(a, a) == 4.0
    ensures Cosine(a, a) <= 1.0
  {
    hide Newton;
    hide Dot;
    var p := Dot(a, a);
    CosineBounded(a, a);
    RootAbove(p);
    RootExactly(p);
    hide Root;
    var w := Root(p) * Root(p);
    var r := p / w;
    assert r * w == p;
  }

  method CosineSimilarity(a: seq<real>, b: seq<real>) returns (r: real)
    requires |a| <= |b|
    ensures r == Cosine(a, b[..|a|])
    ensures -1.0 <= r <= 1.0
  {
    hide Newton;
    var dot, normA, normB := 0.0, 0.0, 0.0;
    ghost var c := b[..|a|];
    assert Dot([], []) == 0.0;
    hide Dot;
    hide Root;
    for i := 0 to |a|
      invariant dot == Dot(a[..i], c[..i]) && normA == Dot(a[..i], a[..i]) && normB == Dot(c[..i], c[..i])
    {
      DotNext(a, c, i);
      DotNext(a, a, i);
      DotNext(c, c, i);
      dot := dot + a[i] * b[i];
      normA := normA + a[i] * a[i];
      normB := normB + b[i] * b[i];
    }
    assert a[..|a|] == a && c[..|a|] == c;
    hide *;
    CosineBounded(a, c);
    CosineIs(a, c);
    normA := Sqrt(normA);
    normB := Sqrt(normB);
    if normA == 0.0 || normB == 0.0 {
      return 0.0;
    }
    r := dot / (normA * normB);
  }

  // ---------------------------------------------------------------- CacheGet

  datatype CacheEntry = CacheEntry(key: string, value: string, embedding: seq<real>, expiresAt: int)

  predicate IsLive(e: CacheEntry, now: int) {
    !(e.expiresAt > 0 && now > e.expiresAt)
  }

  /** Entries a lookup may compare: decodable, not expired, of the query's dimension. */
  predicate IsComparable(entry: Option<CacheEntry>, query: seq<real>, now: int) {
    entry.Some? && IsLive(entry.value, now) && |entry.value.embedding| == |query|
  }

  /** Entries a lookup may return. The running best starts at -1, which only a greater similarity beats. */
  ghost predicate Qualifies(entry: Option<CacheEntry>, query: seq<real>, threshold: real, now: int) {
    && IsComparable(entry, query, now)
    && Cosine(query, entry.value.embedding) >= threshold
    && Cosine(query, entry.value.embedding) > -1.0
  }

  /** The first of the most similar qualifying entries. */
  ghost predicate IsBest(entries: seq<Option<CacheEntry>>, query: seq<real>, threshold: real, now: int, i: int) {
    && 0 <= i < |entries| && Qualifies(entries[i], query, threshold, now)
    && forall j :: 0 <= j < |entries| && Qualifies(entries[j], query, threshold, now) ==>
         && Cosine(query, entries[j].value.embedding) <= Cosine(query, entries[i].value.embedding)
         && (j < i ==> Cosine(query, entries[j].value.embedding) < Cosine(query, entries[i].value.embedding))
  }

  /** What qualifies, field by field. */
  lemma QualifiesExactly(entry: Option<CacheEntry>, query: seq<real>, threshold: real, now: int)
    ensures Qualifies(entry, query, threshold, now) <==>
            && entry.Some? && (entry.value.expiresAt <= 0 || now <= entry.value.expiresAt)
            && |entry.value.embedding| == |query|
            && Cosine(query, entry.value.embedding) >= threshold && Cosine(query, entry.value.embedding) > -1.0
  {
  }

  /** What a lookup returns. */
  ghost predicate IsLookup(entries: seq<Option<CacheEntry>>, query: seq<real>, threshold: real, now: int,
                           value: string, found: bool)
  {
    && (found <==> exists i :: 0 <= i < |entries| && Qualifies(entries[i], query, threshold, now))
    && (found ==> exists i :: IsBest(entries, query, threshold, now, i) && value == entries[i].value.value)
    && (!found ==> value == "")
  }

  /** What is found is as similar as anything live that reaches the threshold, and nothing is found only
      when there is nothing such. */
  lemma LookupIsBest(entries: seq<Option<CacheEntry>>, query: seq<real>, threshold: real, now: int, value: string, found: bool,
                     j: int)
    requires IsLookup(entries, query, threshold, now, value, found)
    requires 0 <= j < |entries| && entries[j].Some? && |entries[j].value.embedding| == |query|
    requires entries[j].value.expiresAt <= 0 || now <= entries[j].value.expiresAt
    requires Cosine(query, entries[j].value.embedding) >= threshold && Cosine(query, entries[j].value.embedding) > -1.0
    ensures found
    ensures exists i ::
              && 0 <= i < |entries| && entries[i].Some? && |entries[i].value.embedding| == |query|
              && value == entries[i].value.value
              && Cosine(query, entries[j].value.embedding) <= Cosine(query, entries[i].value.embedding)
  {
    hide Cosine;
    assert Qualifies(entries[j], query, threshold, now);
    var i :| IsBest(entries, query, threshold, now, i) && value == entries[i].value.value;
  }

  lemma BestIsUnique(entries: seq<Option<CacheEntry>>, query: seq<real>, threshold: real, now: int, i: int, j: int)
    requires IsBest(entries, query, threshold, now, i) && IsBest(entries, query, threshold, now, j)
    ensures i == j
  {
    hide Cosine;
    hide IsLive;
    assert Cosine(query, entries[i].value.embedding) == Cosine(query, entries[j].value.embedding);
  }

  /** The best of a scan stays the best when an entry that does not qualify is put in somewhere. */
  lemma BestMoves(entries: seq<Option<CacheEntry>>, i: nat, x: Option<CacheEntry>, query: seq<real>, threshold: real,
                  now: int, b: int)
    requires i <= |entries| && !Qualifies(x, query, threshold, now)
    requires IsBest(entries, query, threshold, now, b)
    ensures IsBest(entries[..i] + [x] + entries[i..], query, threshold, now, if b < i then b else b + 1)
    ensures (entries[..i] + [x] + entries[i..])[if b < i then b else b + 1] == entries[b]
  {
    hide Cosine;
    hide Qualifies;
    var more := entries[..i] + [x] + entries[i..];
    assert forall j :: 0 <= j < |more| ==> more[j] == if j < i then entries[j] else if j == i then x else entries[j - 1];
  }

  /** An expired entry, put into the scan anywhere or taken out of it, changes nothing. */
  lemma ExpiredIsInvisible(entries: seq<Option<CacheEntry>>, i: nat, e: CacheEntry, query: seq<real>, threshold: real, now: int,
                           value: string, found: bool, value': string, found': bool)
    requires i <= |entries| && 0 < e.expiresAt < now
    requires IsLookup(entries, query, threshold, now, value, found)
    requires IsLookup(entries[..i] + [Some(e)] + entries[i..], query, threshold, now, value', found')
    ensures value' == value && found' == found
  {
    QualifiesExactly(Some(e), query, threshold, now);
    hide Cosine;
    hide IsLive;
    var more := entries[..i] + [Some(e)] + entries[i..];
    assert forall j :: 0 <= j < |more| ==> more[j] == if j < i then entries[j] else if j == i then Some(e) else entries[j - 1];
    assert forall j :: 0 <= j < |entries| ==> entries[j] == more[if j < i then j else j + 1];
    if found {
      var b :| IsBest(entries, query, threshold, now, b) && value == entries[b].value.value;
      BestMoves(entries, i, Some(e), query, threshold, now, b);
      var c :| IsBest(more, query, threshold, now, c) && value' == more[c].value.value;
      BestIsUnique(more, query, threshold, now, c, if b < i then b else b + 1);
    }
  }

  /** `entries` is the cache's scan; None stands for a value that does not decode. */
  method CacheGet(entries: seq<Option<CacheEntry>>, query: seq<real>, threshold: real, now: int)
    returns (value: string, found: bool)
    ensures IsLookup(entries, query, threshold, now, value, found)
    ensures found ==>
              exists i ::
                && 0 <= i < |entries| && entries[i].Some? && value == entries[i].value.value
                && (entries[i].value.expiresAt <= 0 || now <= entries[i].value.expiresAt)
                && |entries[i].value.embedding| == |query| && Cosine(query, entries[i].value.embedding) >= threshold
  {
    var best := -1;
    var bestSimilarity := -1.0;
    for i := 0 to |entries|
      invariant best == -1 ==> bestSimilarity == -1.0
      invariant best == -1 ==> forall j :: 0 <= j < i ==> !Qualifies(entries[j], query, threshold, now)
      invariant best != -1 ==> IsBest(entries[..i], query, threshold, now, best)
      invariant best != -1 ==> bestSimilarity == Cosine(query, entries[best].value.embedding)
    {
      assert forall j :: 0 <= j < i ==> entries[..i + 1][j] == entries[..i][j] == entries[j];
      if IsComparable(entries[i], query, now) {
        var similarity := CosineSimilarity(query, entries[i].value.embedding);
        assert entries[i].value.embedding[..|query|] == entries[i].value.embedding;
        if similarity >= threshold && similarity > bestSimilarity {
          bestSimilarity := similarity;
          best := i;
        }
      }
    }
    assert entries[..|entries|] == entries;
    if best != -1 {
      assert IsBest(entries, query, threshold, now, best);
      return entries[best].value.value, true;
    }
    return "", false;
  }

  /** "At least the threshold" is not quite what CacheGet tests: a comparable entry that reaches the
      threshold is passed over exactly when it is the query's opposite and both have squared norm 4. That
      takes a threshold of -1 or less. */
  lemma PassedOverExactly(entry: Option<CacheEntry>, query: seq<real>, threshold: real, now: int)
    requires IsComparable(entry, query, now) && Cosine(query, entry.value.embedding) >= threshold
    ensures !Qualifies(entry, query, threshold, now) <==>
            Dot(query, query) == 4.0 && entry.value.embedding == Negated(query)
    ensures threshold > -1.0 ==> Qualifies(entry, query, threshold, now)
  {
    CosineBounded(query, entry.value.embedding);
    OppositeExactly(query, entry.value.embedding);
  }

  /** Such an entry exists: opposite vectors whose norms the iteration finds exactly. */
  lemma OppositeIsPassedOver()
    ensures Cosine([2.0], [-2.0]) == -1.0
    ensures !Qualifies(Some(CacheEntry("k", "v", [-2.0], 0)), [2.0], -1.0, 0)
  {
    var a, b := [2.0], [-2.0];
    assert a[..0] == [] && b[..0] == [];
    assert Dot(a, b) == -4.0 && Dot(a, a) == 4.0 && Dot(b, b) == 4.0;
    NewtonFixed(4.0, 2.0, 10);
  }
}
