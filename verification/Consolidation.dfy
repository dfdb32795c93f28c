/** Consolidation of raw assertions into canonical facts (memory_consolidation.go), over exact reals.
    A fact is identified with its canonical JSON text; `hash` stands for the truncated digest. */
module Consolidation {
  import opened Lists
  import opened Options

  datatype RawAssertion = RawAssertion(id: string, fact: string, source: string, confidence: real, timestamp: int)

  datatype Contradiction = Contradiction(from: Option<string>, timestamp: Option<int>)

  datatype CanonicalFact = CanonicalFact(id: string, mergedFact: string, confidence: real, sources: seq<string>, validFrom: int)

  datatype Config = Config(useTemporalUpdates: bool, maxConflictAge: int)

  /** Everything a run of Consolidate reads, the clock included. */
  datatype Input = Input(assertions: seq<RawAssertion>, contradictions: seq<Contradiction>, config: Config, now: int)

  // ---------------------------------------------------------------- merged confidence

  function Weight(i: nat): real { 1.0 / ((i + 1) as real) }

  ghost function Weights(n: nat): real {
    if n == 0 then 0.0 else Weights(n - 1) + Weight(n - 1)
  }

  ghost function Weighted(cs: seq<real>): real {
    if cs == [] then 0.0 else Weighted(cs[..|cs| - 1]) + cs[|cs| - 1] * Weight(|cs| - 1)
  }

  ghost function Total(cs: seq<real>): real {
    if cs == [] then 0.0 else Total(cs[..|cs| - 1]) + cs[|cs| - 1]
  }

  lemma {:induction false} WeightsPositive(n: nat)
    ensures Weights(n) >= 0.0 && (n > 0 ==> Weights(n) >= 1.0)
  {
    if n > 1 {
      WeightsPositive(n - 1);
      assert Weight(n - 1) > 0.0;
    } else if n == 1 {
      assert Weights(1) == Weights(0) + Weight(0);
    }
  }

  ghost function Merge(cs: seq<real>): real {
    WeightsPositive(|cs|);
    if cs == [] then 0.0
    else if |cs| == 1 then cs[0]
    else Weighted(cs) / Weights(|cs|)
  }

  /** The single-assertion shortcut agrees with the formula. */
  lemma MergeFormula(cs: seq<real>)
    requires cs != []
    ensures Weights(|cs|) > 0.0 && Merge(cs) == Weighted(cs) / Weights(|cs|)
  {
    WeightsPositive(|cs|);
    if |cs| == 1 {
      assert Weighted(cs[..0]) == 0.0 && Weights(1) == Weights(0) + Weight(0);
    }
  }

  lemma Unfold(cs: seq<real>)
    requires cs != []
    ensures var n := |cs| - 1;
            && Weighted(cs) == Weighted(cs[..n]) + cs[n] * Weight(n)
            && Weights(|cs|) == Weights(n) + Weight(n)
            && Total(cs) == Total(cs[..n]) + cs[n]
            && |cs| as real == n as real + 1.0
  {
  }

  ghost predicate Between(p: real, u: real, lo: real, hi: real) {
    lo * u <= p <= hi * u
  }

  lemma BetweenStart(lo: real, hi: real)
    ensures Between(0.0, 0.0, lo, hi)
  {
  }

  lemma BetweenStep(p: real, u: real, p': real, u': real, v: real, x: real, lo: real, hi: real)
    requires Between(p, u, lo, hi) && v > 0.0 && lo <= x <= hi
    requires p' == p + x * v && u' == u + v
    ensures Between(p', u', lo, hi)
  {
    assert lo * v <= x * v <= hi * v;
  }

  lemma WeightPositive(i: nat)
    ensures Weight(i) > 0.0
  {
  }

  lemma {:induction false} WeightedBetween(cs: seq<real>, lo: real, hi: real)
    requires forall i :: 0 <= i < |cs| ==> lo <= cs[i] <= hi
    ensures Between(Weighted(cs), Weights(|cs|), lo, hi)
  {
    hide Between;
    hide Weight;
    if cs == [] {
      BetweenStart(lo, hi);
    } else {
      hide Weighted;
      hide Weights;
      var n := |cs| - 1;
      WeightPositive(n);
      WeightedBetween(cs[..n], lo, hi);
      Unfold(cs);
      BetweenStep(Weighted(cs[..n]), Weights(n), Weighted(cs), Weights(|cs|), Weight(n), cs[n], lo, hi);
    }
  }

  lemma QuotientBetween(a: real, w: real, lo: real, hi: real)
    requires w > 0.0 && Between(a, w, lo, hi)
    ensures lo <= a / w <= hi
  {
    var q := a / w;
    assert q * w == a;
    assert q < lo ==> q * w < lo * w;
    assert q > hi ==> q * w > hi * w;
  }

  /** Whatever the order, the merged confidence lies between the smallest and the largest one. */
  lemma MergeBetween(cs: seq<real>, lo: real, hi: real)
    requires cs != [] && forall i :: 0 <= i < |cs| ==> lo <= cs[i] <= hi
    ensures lo <= Merge(cs) <= hi
  {
    hide Between;
    hide Weighted;
    hide Weights;
    hide Merge;
    MergeFormula(cs);
    WeightedBetween(cs, lo, hi);
    QuotientBetween(Weighted(cs), Weights(|cs|), lo, hi);
  }

  /** The cross terms of n confidences against a last, smallest one `c` of weight `w`: with weighted sum
      `p`, weights `u` and total `t`, this is the sum of (w_i - w)(c_i - c). */
  ghost predicate CrossTerms(p: real, n: real, u: real, t: real, c: real, w: real) {
    p + n * (w * c) - u * c - w * t >= 0.0
  }

  /** Chebyshev's inequality for n numbers with weighted sum `p`, weights `u` and total `t`. */
  ghost predicate Chebyshev(n: real, p: real, u: real, t: real) {
    n * p >= u * t
  }

  lemma CrossStart(c: real, w: real)
    ensures CrossTerms(0.0, 0.0, 0.0, 0.0, c, w)
  {
  }

  lemma CrossStep(p: real, n: real, u: real, t: real, p': real, n': real, u': real, t': real,
                  v: real, x: real, c: real, w: real)
    requires CrossTerms(p, n, u, t, c, w) && v >= w && x >= c
    requires p' == p + x * v && n' == n + 1.0 && u' == u + v && t' == t + x
    ensures CrossTerms(p', n', u', t', c, w)
  {
    assert (v - w) * (x - c) >= 0.0;
    assert (v - w) * (x - c) == x * v - v * c - w * x + w * c;
    assert (n + 1.0) * (w * c) == n * (w * c) + w * c;
    assert (u + v) * c == u * c + v * c;
    assert w * (t + x) == w * t + w * x;
  }

  lemma {:induction false} CrossTermsHold(cs: seq<real>, c: real, w: real)
    requires forall i :: 0 <= i < |cs| ==> cs[i] >= c && Weight(i) >= w
    ensures CrossTerms(Weighted(cs), |cs| as real, Weights(|cs|), Total(cs), c, w)
  {
    hide CrossTerms;
    hide Weight;
    if cs == [] {
      CrossStart(c, w);
    } else {
      var n := |cs| - 1;
      CrossTermsHold(cs[..n], c, w);
      Unfold(cs);
      CrossStep(Weighted(cs[..n]), n as real, Weights(n), Total(cs[..n]),
                Weighted(cs), |cs| as real, Weights(|cs|), Total(cs), Weight(n), cs[n], c, w);
    }
  }

  lemma ChebyshevStart()
    ensures Chebyshev(0.0, 0.0, 0.0, 0.0)
  {
  }

  lemma ChebyshevStep(n: real, p: real, u: real, t: real, n': real, p': real, u': real, t': real, c: real, w: real)
    requires Chebyshev(n, p, u, t) && CrossTerms(p, n, u, t, c, w)
    requires n' == n + 1.0 && p' == p + c * w && u' == u + w && t' == t + c
    ensures Chebyshev(n', p', u', t')
  {
    assert (n + 1.0) * (p + c * w) == n * p + n * (w * c) + p + w * c;
    assert (u + w) * (t + c) == u * t + u * c + w * t + w * c;
  }

  /** Chebyshev's sum inequality for descending numbers and the weights 1, 1/2, 1/3, ... */
  lemma {:induction false} ChebyshevHolds(cs: seq<real>)
    requires Descending(cs)
    ensures Chebyshev(|cs| as real, Weighted(cs), Weights(|cs|), Total(cs))
  {
    hide Chebyshev;
    hide CrossTerms;
    hide Weight;
    if cs == [] {
      ChebyshevStart();
    } else {
      var n := |cs| - 1;
      ChebyshevHolds(cs[..n]);
      forall i | 0 <= i < n ensures Weight(i) >= Weight(n) { WeightsDecrease(i, n); }
      CrossTermsHold(cs[..n], cs[n], Weight(n));
      Unfold(cs);
      ChebyshevStep(n as real, Weighted(cs[..n]), Weights(n), Total(cs[..n]),
                    |cs| as real, Weighted(cs), Weights(|cs|), Total(cs), cs[n], Weight(n));
    }
  }

  lemma WeightsDecrease(i: nat, j: nat)
    requires i <= j
    ensures Weight(i) >= Weight(j)
  {
    var a, b := (i + 1) as real, (j + 1) as real;
    assert Weight(i) * a == 1.0 && Weight(j) * b == 1.0;
    assert Weight(j) * a <= 1.0 by {
      assert Weight(j) > 0.0;
      assert Weight(j) * a <= Weight(j) * b;
    }
    assert (Weight(i) - Weight(j)) * a >= 0.0;
  }

  ghost predicate AtLeastAverage(c: real, cs: seq<real>) {
    c * |cs| as real >= Total(cs)
  }

  /** In the order Consolidate builds, the merged confidence is never below the plain average. */
  lemma MergeAboveAverage(cs: seq<real>)
    requires cs != [] && Descending(cs)
    ensures AtLeastAverage(Merge(cs), cs)
  {
    hide Merge;
    hide Weighted;
    hide Weights;
    hide Chebyshev;
    MergeFormula(cs);
    ChebyshevHolds(cs);
    AverageStep(Weighted(cs), Weights(|cs|), |cs| as real, Total(cs));
  }

  lemma AverageStep(p: real, w: real, n: real, t: real)
    requires w > 0.0 && Chebyshev(n, p, w, t)
    ensures p / w * n >= t
  {
    var m := p / w;
    assert m * w == p;
    assert (m * n) * w == n * (m * w);
    CancelWeight(m * n, t, w);
  }

  lemma CancelWeight(a: real, b: real, w: real)
    requires w > 0.0 && a * w >= b * w
    ensures a >= b
  {
    assert a < b ==> a * w < b * w;
  }

  lemma {:induction false} WeightsAreHarmonic(h: nat -> real, n: nat)
    requires h(0) == 0.0 && forall n: nat :: (n + 1) as real * (h(n + 1) - h(n)) == 1.0
    ensures Weights(n) == h(n)
  {
    if n > 0 {
      WeightsAreHarmonic(h, n - 1);
      SameReciprocal(n as real, h(n) - h(n - 1));
    }
  }

  lemma SameReciprocal(x: real, y: real)
    requires x > 0.0 && x * y == 1.0
    ensures y == 1.0 / x
  {
  }

  lemma {:induction false} WeightedRaised(cs: seq<real>, i: nat, d: real)
    requires i < |cs|
    ensures Weighted(cs[i := cs[i] + d]) == Weighted(cs) + d * Weight(i)
    decreases |cs|
  {
    var n, raised := |cs| - 1, cs[i := cs[i] + d];
    Unfold(raised);
    Unfold(cs);
    hide *;
    if i < n {
      assert raised[..n] == cs[..n][i := cs[i] + d] && raised[n] == cs[n];
      WeightedRaised(cs[..n], i, d);
    } else {
      assert raised[..n] == cs[..n];
      Distribute(cs[n], d, Weight(n));
    }
  }

  lemma Distribute(a: real, b: real, w: real)
    ensures (a + b) * w == a * w + b * w
  {
  }

  lemma {:induction false} WeightedZero(cs: seq<real>)
    requires forall i :: 0 <= i < |cs| ==> cs[i] == 0.0
    ensures Weighted(cs) == 0.0
  {
    if cs != [] {
      WeightedZero(cs[..|cs| - 1]);
    }
  }

  lemma ShareOfRaise(w: real, d: real, u: real, m: real, h: real, i: nat)
    requires h > 0.0 && u * (i + 1) as real == 1.0
    requires m == (w + d * u) / h
    ensures (m - w / h) * ((i + 1) as real * h) == d
  {
    var x, a := w / h, (i + 1) as real;
    assert m * h == w + d * u && x * h == w;
    assert (m - x) * (a * h) == (m * h - x * h) * a;
    assert (d * u) * a == d * (u * a);
  }

  lemma WeightIs(i: nat)
    ensures Weight(i) * (i + 1) as real == 1.0
  {
  }

  lemma RaisedShare(cs: seq<real>, i: nat, d: real)
    requires i < |cs|
    ensures Weights(|cs|) > 0.0
    ensures (Merge(cs[i := cs[i] + d]) - Merge(cs)) * ((i + 1) as real * Weights(|cs|)) == d
  {
    hide Merge;
    hide Weighted;
    hide Weights;
    hide Weight;
    MergeFormula(cs);
    MergeFormula(cs[i := cs[i] + d]);
    WeightedRaised(cs, i, d);
    WeightIs(i);
    ShareOfRaise(Weighted(cs), d, Weight(i), Merge(cs[i := cs[i] + d]), Weights(|cs|), i);
  }

  /** The weights, with h the harmonic numbers: raising the i-th of n confidences by d raises the merged
      one by d / ((i + 1) h(n)). Together with the value 0 for all zeros this determines it. */
  lemma MergeRaised(h: nat -> real, cs: seq<real>, i: nat, d: real)
    requires h(0) == 0.0 && forall n: nat :: (n + 1) as real * (h(n + 1) - h(n)) == 1.0
    requires i < |cs|
    ensures h(|cs|) > 0.0
    ensures (Merge(cs[i := cs[i] + d]) - Merge(cs)) * ((i + 1) as real * h(|cs|)) == d
  {
    WeightsAreHarmonic(h, |cs|);
    hide *;
    RaisedShare(cs, i, d);
  }

  lemma MergeOfZeros(cs: seq<real>)
    requires forall i :: 0 <= i < |cs| ==> cs[i] == 0.0
    ensures Merge(cs) == 0.0
  {
    if cs != [] {
      MergeFormula(cs);
      WeightedZero(cs);
    }
  }

  /** The value of the cross terms. */
  ghost function Excess(p: real, n: real, u: real, t: real, c: real, w: real): real {
    p + n * (w * c) - u * c - w * t
  }

  function Times(a: real, b: real): real { a * b }

  function Gap(w: real, x: real, c: real): real { Times(1.0 - w, x - c) }

  lemma PositiveProduct(a: real, b: real)
    requires a > 0.0 && b > 0.0
    ensures Times(a, b) > 0.0
  {
  }

  lemma GapPositive(w: real, x: real, c: real)
    requires w < 1.0 && x > c
    ensures Gap(w, x, c) > 0.0
  {
    hide Times;
    PositiveProduct(1.0 - w, x - c);
  }

  lemma NonNegativeProduct(a: real, b: real)
    requires a >= 0.0 && b >= 0.0
    ensures a * b >= 0.0
  {
  }

  lemma ExcessStart(x: real, c: real, w: real)
    ensures Excess(x, 1.0, 1.0, x, c, w) == Gap(w, x, c)
  {
    assert (1.0 - w) * (x - c) == x - c - w * x + w * c;
  }

  lemma ExcessStep(p: real, n: real, u: real, t: real, p': real, n': real, u': real, t': real, v: real, x: real, c: real, w: real)
    requires v >= w && x >= c && p' == p + x * v && n' == n + 1.0 && u' == u + v && t' == t + x
    ensures Excess(p', n', u', t', c, w) >= Excess(p, n, u, t, c, w)
  {
    NonNegativeProduct(v - w, x - c);
    assert (v - w) * (x - c) == x * v - v * c - w * x + w * c;
    assert (n + 1.0) * (w * c) == n * (w * c) + w * c;
    assert (u + v) * c == u * c + v * c;
    assert w * (t + x) == w * t + w * x;
  }

  lemma FirstUnfolds(cs: seq<real>)
    requires |cs| == 1
    ensures Weighted(cs) == cs[0] && Weights(1) == 1.0 && Total(cs) == cs[0]
  {
    Unfold(cs);
    assert cs[..0] == [] && Weight(0) == 1.0;
  }

  /** The cross terms are strictly positive as soon as the first confidence exceeds the last. */
  lemma {:induction false} CrossTermsStrict(cs: seq<real>, c: real, w: real)
    requires cs != [] && forall i :: 0 <= i < |cs| ==> cs[i] >= c && Weight(i) >= w
    ensures Excess(Weighted(cs), |cs| as real, Weights(|cs|), Total(cs), c, w) >= Gap(w, cs[0], c)
  {
    hide Excess;
    hide Gap;
    hide Weighted;
    hide Weights;
    hide Weight;
    hide Total;
    var n := |cs| - 1;
    if n == 0 {
      FirstUnfolds(cs);
      ExcessStart(cs[0], c, w);
    } else {
      CrossTermsStrict(cs[..n], c, w);
      Unfold(cs);
      ExcessStep(Weighted(cs[..n]), n as real, Weights(n), Total(cs[..n]),
                 Weighted(cs), |cs| as real, Weights(|cs|), Total(cs), Weight(n), cs[n], c, w);
    }
  }

  lemma LaterWeight(n: nat)
    requires n > 0
    ensures Weight(n) < 1.0
  {
    var a := (n + 1) as real;
    assert Weight(n) * a == 1.0;
    assert Weight(n) >= 1.0 ==> Weight(n) * a >= a;
  }

  /** Chebyshev's inequality is strict for confidences that are not all equal. */
  lemma ChebyshevStrict(cs: seq<real>)
    requires Descending(cs) && cs != [] && cs[0] > cs[|cs| - 1]
    ensures |cs| as real * Weighted(cs) > Weights(|cs|) * Total(cs)
  {
    hide Excess;
    hide Gap;
    hide Chebyshev;
    hide Weighted;
    hide Weights;
    hide Total;
    hide Weight;
    var n := |cs| - 1;
    var c, w := cs[n], Weight(n);
    ChebyshevHolds(cs[..n]);
    forall i | 0 <= i < n ensures Weight(i) >= w { WeightsDecrease(i, n); }
    CrossTermsStrict(cs[..n], c, w);
    LaterWeight(n);
    GapPositive(w, cs[0], c);
    Unfold(cs);
    StrictStep(n as real, Weighted(cs[..n]), Weights(n), Total(cs[..n]),
               |cs| as real, Weighted(cs), Weights(|cs|), Total(cs), c, w);
  }

  lemma StrictStep(n: real, p: real, u: real, t: real, n': real, p': real, u': real, t': real, c: real, w: real)
    requires Chebyshev(n, p, u, t) && Excess(p, n, u, t, c, w) > 0.0
    requires n' == n + 1.0 && p' == p + c * w && u' == u + w && t' == t + c
    ensures n' * p' > u' * t'
  {
    assert (n + 1.0) * (p + c * w) == n * p + n * (w * c) + p + w * c;
    assert (u + w) * (t + c) == u * t + u * c + w * t + w * c;
  }

  lemma {:induction false} EqualTotal(cs: seq<real>, c: real)
    requires forall i :: 0 <= i < |cs| ==> cs[i] == c
    ensures Total(cs) == c * |cs| as real
  {
    if cs != [] {
      EqualTotal(cs[..|cs| - 1], c);
      assert c * |cs| as real == c * (|cs| - 1) as real + c;
    }
  }

  /** In descending order the merged confidence is the plain average exactly when all are equal, and
      above it otherwise. */
  lemma MergeIsAverageExactly(cs: seq<real>)
    requires cs != [] && Descending(cs)
    ensures Merge(cs) * |cs| as real == Total(cs) <==> forall i, j :: 0 <= i < j < |cs| ==> cs[i] == cs[j]
  {
    hide Merge;
    hide Weighted;
    hide Weights;
    hide Total;
    var c := cs[0];
    if cs[0] > cs[|cs| - 1] {
      MergeFormula(cs);
      ChebyshevStrict(cs);
      AverageStrict(Weighted(cs), Weights(|cs|), |cs| as real, Total(cs));
    } else {
      MergeBetween(cs, c, c);
      EqualTotal(cs, c);
    }
  }

  lemma AverageStrict(p: real, w: real, n: real, t: real)
    requires w > 0.0 && n * p > w * t
    ensures p / w * n > t
  {
    var m := p / w;
    assert m * w == p;
    assert (m * n) * w == n * (m * w);
    assert m * n <= t ==> (m * n) * w <= t * w;
  }

  method MergeConfidence(assertions: seq<RawAssertion>) returns (r: real)
    ensures r == Merge(Map(assertions, Confidence))
  {
    if |assertions| == 0 { return 0.0; }
    if |assertions| == 1 { return assertions[0].confidence; }
    var totalWeight, weightedSum := 0.0, 0.0;
    ghost var cs := Map(assertions, Confidence);
    for i := 0 to |assertions|
      invariant totalWeight == Weights(i) && weightedSum == Weighted(cs[..i])
    {
      assert cs[..i + 1][..i] == cs[..i];
      var weight := 1.0 / (i + 1) as real;
      weightedSum := weightedSum + assertions[i].confidence * weight;
      totalWeight := totalWeight + weight;
    }
    assert cs[..|assertions|] == cs;
    WeightsPositive(|assertions|);
    r := weightedSum / totalWeight;
  }

  // ---------------------------------------------------------------- contradictions

  predicate IsAged(ct: Contradiction, config: Config, now: int) {
    config.useTemporalUpdates && ct.timestamp.Some? && now - ct.timestamp.value > config.maxConflictAge
  }

  /** Only the first contradiction that names the assertion is looked at. */
  function Contradicted(cts: seq<Contradiction>, id: string, config: Config, now: int): bool {
    if cts == [] then false
    else if cts[0].from == Some(id) then !IsAged(cts[0], config, now)
    else Contradicted(cts[1..], id, config, now)
  }

  /** Some contradiction that names the assertion is still in force. */
  ghost predicate InForce(cts: seq<Contradiction>, id: string, config: Config, now: int) {
    exists i :: 0 <= i < |cts| && cts[i].from == Some(id) && !IsAged(cts[i], config, now)
  }

  /** The first contradiction naming the assertion hides all later ones: the two notions part exactly
      when it has aged and one behind it has not. */
  lemma {:induction false} FirstContradictionDecides(cts: seq<Contradiction>, id: string, config: Config, now: int, k: nat)
    requires k <= |cts| && forall i :: 0 <= i < k ==> cts[i].from != Some(id)
    requires k < |cts| ==> cts[k].from == Some(id)
    ensures Contradicted(cts, id, config, now) <==>
            && k < |cts|
            && !(config.useTemporalUpdates && cts[k].timestamp.Some? && now - cts[k].timestamp.value > config.maxConflictAge)
    ensures (Contradicted(cts, id, config, now) <==> InForce(cts, id, config, now)) <==>
            !(k < |cts| && IsAged(cts[k], config, now) && InForce(cts[k + 1..], id, config, now))
  {
    FirstMatch(cts, id, config, now, k);
    if k < |cts| {
      if InForce(cts[k + 1..], id, config, now) {
        var i :| 0 <= i < |cts| - k - 1 && cts[k + 1..][i].from == Some(id) && !IsAged(cts[k + 1..][i], config, now);
        assert cts[k + 1 + i] == cts[k + 1..][i];
      }
      if InForce(cts, id, config, now) {
        var i :| 0 <= i < |cts| && cts[i].from == Some(id) && !IsAged(cts[i], config, now);
        assert i > k ==> cts[k + 1..][i - k - 1] == cts[i];
      }
    }
  }

  lemma {:induction false} FirstMatch(cts: seq<Contradiction>, id: string, config: Config, now: int, k: nat)
    requires k <= |cts| && forall i :: 0 <= i < k ==> cts[i].from != Some(id)
    requires k < |cts| ==> cts[k].from == Some(id)
    ensures Contradicted(cts, id, config, now) <==> k < |cts| && !IsAged(cts[k], config, now)
  {
    if k > 0 {
      FirstMatch(cts[1..], id, config, now, k - 1);
    }
  }

  /** An old contradiction in front of a fresh one lets the assertion survive. */
  lemma OldContradictionShadowsNew()
    ensures var config := Config(true, 86400);
            var cts := [Contradiction(Some("a"), Some(0)), Contradiction(Some("a"), Some(100000))];
            InForce(cts, "a", config, 100000) && !Contradicted(cts, "a", config, 100000)
  {
    var cts := [Contradiction(Some("a"), Some(0)), Contradiction(Some("a"), Some(100000))];
    assert cts[1].from == Some("a") && !IsAged(cts[1], Config(true, 86400), 100000);
  }

  method IsContradicted(cts: seq<Contradiction>, id: string, config: Config, now: int) returns (r: bool)
    ensures r == Contradicted(cts, id, config, now)
  {
    r := false;
    var i := 0;
    while i < |cts|
      invariant 0 <= i <= |cts| && !r
      invariant Contradicted(cts, id, config, now) == Contradicted(cts[i..], id, config, now)
    {
      if cts[i].from == Some(id) {
        r := true;
        if config.useTemporalUpdates && cts[i].timestamp.Some? {
          var age := now - cts[i].timestamp.value;
          if age > config.maxConflictAge {
            r := false;
          }
        }
        return;
      }
      i := i + 1;
    }
  }

  // ---------------------------------------------------------------- canonical facts

  function Confidence(a: RawAssertion): real { a.confidence }

  function Source(a: RawAssertion): string { a.source }

  predicate Stronger(a: RawAssertion, b: RawAssertion) {
    if a.confidence != b.confidence then a.confidence > b.confidence else a.timestamp > b.timestamp
  }

  predicate Survives(inp: Input, a: RawAssertion) {
    !Contradicted(inp.contradictions, a.id, inp.config, inp.now)
  }

  /** The same on the fields: no contradiction names the assertion, or the first one that does is strictly
      older than the limit while temporal updates are on. */
  ghost predicate IsKept(inp: Input, a: RawAssertion) {
    forall k :: 0 <= k < |inp.contradictions| && FirstNames(inp.contradictions, a.id, k) ==>
      && inp.config.useTemporalUpdates && inp.contradictions[k].timestamp.Some?
      && inp.now - inp.contradictions[k].timestamp.value > inp.config.maxConflictAge
  }

  ghost predicate FirstNames(cts: seq<Contradiction>, id: string, k: nat)
    requires k < |cts|
  {
    cts[k].from == Some(id) && forall j :: 0 <= j < k ==> cts[j].from != Some(id)
  }

  lemma FirstNaming(cts: seq<Contradiction>, id: string) returns (k: nat)
    ensures k <= |cts| && (forall j :: 0 <= j < k ==> cts[j].from != Some(id)) && (k < |cts| ==> cts[k].from == Some(id))
  {
    k := 0;
    while k < |cts| && cts[k].from != Some(id)
      invariant k <= |cts| && forall j :: 0 <= j < k ==> cts[j].from != Some(id)
    {
      k := k + 1;
    }
  }

  lemma SurvivesExactly(inp: Input, a: RawAssertion)
    ensures Survives(inp, a) <==> IsKept(inp, a)
  {
    var k := FirstNaming(inp.contradictions, a.id);
    FirstMatch(inp.contradictions, a.id, inp.config, inp.now, k);
    hide Contradicted;
    assert k < |inp.contradictions| ==> FirstNames(inp.contradictions, a.id, k);
    assert forall j :: 0 <= j < |inp.contradictions| && FirstNames(inp.contradictions, a.id, j) ==> j == k;
  }

  /** The assertions of fact `f` that no contradiction removes, as a bag. */
  ghost function Survivors(inp: Input, f: string): multiset<RawAssertion> {
    multiset(Filter(inp.assertions, (a: RawAssertion) => a.fact == f && Survives(inp, a)))
  }

  ghost function LiveFacts(inp: Input): set<string> {
    set a | a in inp.assertions && Survives(inp, a) :: a.fact
  }

  /** Each surviving assertion contributes, with all its copies, to the one fact it asserts. */
  lemma EachSurvivorCountsOnce(inp: Input, a: RawAssertion, f: string)
    ensures Survivors(inp, f)[a] == if a.fact == f && IsKept(inp, a) then multiset(inp.assertions)[a] else 0
    ensures Survivors(inp, f) != multiset{} <==> f in LiveFacts(inp)
    ensures f in LiveFacts(inp) <==> exists b :: b in inp.assertions && b.fact == f && IsKept(inp, b)
  {
    forall b ensures Survives(inp, b) <==> IsKept(inp, b) {
      SurvivesExactly(inp, b);
    }
    hide Survives;
    hide IsKept;
    var p := (a: RawAssertion) => a.fact == f && Survives(inp, a);
    FilterCounts(inp.assertions, p, a);
    var r := Filter(inp.assertions, p);
    if f in LiveFacts(inp) {
      var b :| b in inp.assertions && Survives(inp, b) && b.fact == f;
      assert b in r;
      assert b in multiset(r);
    }
    if r != [] {
      assert r[0] in r;
    }
    assert |multiset(r)| == |r|;
  }

  /** `cf` is built from `order`, strongest assertion first. */
  ghost predicate IsBuiltFrom(hash: string -> string, order: seq<RawAssertion>, cf: CanonicalFact) {
    && order != []
    && cf.id == hash(order[0].fact) && cf.mergedFact == order[0].fact
    && cf.confidence == Merge(Map(order, Confidence))
    && cf.sources == Map(order, Source)
    && (exists i :: 0 <= i < |order| && order[i].timestamp == cf.validFrom)
    && (forall i :: 0 <= i < |order| ==> cf.validFrom <= order[i].timestamp)
  }

  /** `cf` is a canonical fact for the bag `group`, under some tie-breaking. */
  ghost predicate IsCanonical(hash: string -> string, group: multiset<RawAssertion>, cf: CanonicalFact) {
    exists order :: multiset(order) == group && SortedBy(order, Stronger) && IsBuiltFrom(hash, order, cf)
  }

  /** Equal up to the order in which tied sources are listed. */
  ghost predicate SameFact(a: CanonicalFact, b: CanonicalFact) {
    && a.id == b.id && a.mergedFact == b.mergedFact && a.confidence == b.confidence && a.validFrom == b.validFrom
    && multiset(a.sources) == multiset(b.sources)
  }

  lemma StrongerIsStrictWeak(group: seq<RawAssertion>)
    ensures IsStrictWeak(Stronger, group)
  {
  }

  lemma ConfidencesDescend(order: seq<RawAssertion>)
    requires SortedBy(order, Stronger)
    ensures Descending(Map(order, Confidence))
  {
    var cs := Map(order, Confidence);
    forall i, j | 0 <= i < j < |cs| ensures cs[i] >= cs[j] {
      assert !Stronger(order[j], order[i]);
    }
  }

  /** Tie-breaking does not show in a canonical fact, except in the order of its sources. */
  lemma CanonicalIsUnique(hash: string -> string, group: multiset<RawAssertion>, a: CanonicalFact, b: CanonicalFact, f: string)
    requires IsCanonical(hash, group, a) && IsCanonical(hash, group, b)
    requires forall x :: x in group ==> x.fact == f
    ensures SameFact(a, b) && a.id == hash(f) && a.mergedFact == f
  {
    var s :| multiset(s) == group && SortedBy(s, Stronger) && IsBuiltFrom(hash, s, a);
    var t :| multiset(t) == group && SortedBy(t, Stronger) && IsBuiltFrom(hash, t, b);
    assert s[0] in group && t[0] in group;
    MapPermutation(s, t, Confidence);
    MapPermutation(s, t, Source);
    ConfidencesDescend(s);
    ConfidencesDescend(t);
    DescendingIsUnique(Map(s, Confidence), Map(t, Confidence));
    MinimumIsUnique(s, t, a.validFrom, b.validFrom);
  }

  lemma MinimumIsUnique(s: seq<RawAssertion>, t: seq<RawAssertion>, m: int, n: int)
    requires multiset(s) == multiset(t)
    requires (exists i :: 0 <= i < |s| && s[i].timestamp == m) && forall i :: 0 <= i < |s| ==> m <= s[i].timestamp
    requires (exists i :: 0 <= i < |t| && t[i].timestamp == n) && forall i :: 0 <= i < |t| ==> n <= t[i].timestamp
    ensures m == n
  {
    var i :| 0 <= i < |s| && s[i].timestamp == m;
    var j :| 0 <= j < |t| && t[j].timestamp == n;
    assert s[i] in multiset(t) && t[j] in multiset(s);
    assert s[i] in t && t[j] in s;
  }

  /** A canonical fact is as sure as its assertions are: between the least and the most confident, and
      at least as sure as they are on average. */
  lemma CanonicalConfidence(hash: string -> string, group: multiset<RawAssertion>, cf: CanonicalFact, lo: real, hi: real)
    requires IsCanonical(hash, group, cf)
    requires forall a :: a in group ==> lo <= a.confidence <= hi
    ensures lo <= cf.confidence <= hi
    ensures exists order :: multiset(order) == group && AtLeastAverage(cf.confidence, Map(order, Confidence))
  {
    hide Merge;
    hide Map;
    hide AtLeastAverage;
    var s :| multiset(s) == group && SortedBy(s, Stronger) && IsBuiltFrom(hash, s, cf);
    var cs := Map(s, Confidence);
    forall i | 0 <= i < |cs| ensures lo <= cs[i] <= hi {
      assert s[i] in group;
    }
    MergeBetween(cs, lo, hi);
    ConfidencesDescend(s);
    MergeAboveAverage(cs);
  }

  /** A canonical fact for the surviving assertions of `f`, field by field: their fact, the hash of it, the
      earliest of their times, and their sources, strongest assertion first and of equal strength the latest. */
  lemma CanonicalOnFields(hash: string -> string, group: multiset<RawAssertion>, cf: CanonicalFact, f: string)
    returns (order: seq<RawAssertion>)
    requires IsCanonical(hash, group, cf) && forall a :: a in group ==> a.fact == f
    ensures multiset(order) == group && |cf.sources| == |order| > 0
    ensures cf.id == hash(f) && cf.mergedFact == f
    ensures forall i :: 0 <= i < |order| ==> cf.sources[i] == order[i].source && cf.validFrom <= order[i].timestamp
    ensures exists i :: 0 <= i < |order| && order[i].timestamp == cf.validFrom
    ensures forall i, j :: 0 <= i < j < |order| ==>
              || order[i].confidence > order[j].confidence
              || (order[i].confidence == order[j].confidence && order[i].timestamp >= order[j].timestamp)
  {
    order :| multiset(order) == group && SortedBy(order, Stronger) && IsBuiltFrom(hash, order, cf);
    assert order[0] in group;
    StrongerOnFields(order);
    hide SortedBy;
    hide Stronger;
    hide Merge;
  }

  lemma StrongerOnFields(order: seq<RawAssertion>)
    requires SortedBy(order, Stronger)
    ensures forall i, j :: 0 <= i < j < |order| ==>
              || order[i].confidence > order[j].confidence
              || (order[i].confidence == order[j].confidence && order[i].timestamp >= order[j].timestamp)
  {
    forall i, j | 0 <= i < j < |order|
      ensures || order[i].confidence > order[j].confidence
              || (order[i].confidence == order[j].confidence && order[i].timestamp >= order[j].timestamp)
    {
      assert !Stronger(order[j], order[i]);
    }
  }

  // ---------------------------------------------------------------- what a run writes

  ghost predicate IsWritten(inp: Input, hash: string -> string, facts: set<string>, id: string, cf: CanonicalFact) {
    exists f :: f in facts && hash(f) == id && IsCanonical(hash, Survivors(inp, f), cf)
  }

  /** `after` is `before` with a canonical fact written for each of `facts`. */
  ghost predicate Written(inp: Input, hash: string -> string, facts: set<string>,
                          before: map<string, CanonicalFact>, after: map<string, CanonicalFact>)
  {
    && (forall f :: f in facts ==> hash(f) in after)
    && (forall id :: id in before ==> id in after)
    && forall id :: id in after ==>
         || IsWritten(inp, hash, facts, id, after[id])
         || (id in before && after[id] == before[id] && forall f :: f in facts ==> hash(f) != id)
  }

  lemma WriteOne(inp: Input, hash: string -> string, facts: set<string>, before: map<string, CanonicalFact>,
                 after: map<string, CanonicalFact>, f: string, cf: CanonicalFact)
    requires Written(inp, hash, facts, before, after)
    requires IsCanonical(hash, Survivors(inp, f), cf) && cf.id == hash(f)
    ensures Written(inp, hash, facts + {f}, before, after[cf.id := cf])
  {
    hide IsCanonical;
    hide Survivors;
    var after', facts' := after[cf.id := cf], facts + {f};
    assert IsWritten(inp, hash, facts', cf.id, cf) by { assert f in facts'; }
    forall id | id in after' && id != cf.id
      ensures IsWritten(inp, hash, facts', id, after'[id])
           || (id in before && after'[id] == before[id] && forall g :: g in facts' ==> hash(g) != id)
    {
      if IsWritten(inp, hash, facts, id, after[id]) {
        var g :| g in facts && hash(g) == id && IsCanonical(hash, Survivors(inp, g), after[id]);
        assert g in facts';
      }
    }
  }

  ghost predicate CollisionFree(hash: string -> string, facts: set<string>) {
    forall f, g :: f in facts && g in facts && hash(f) == hash(g) ==> f == g
  }

  ghost predicate SameFacts(a: map<string, CanonicalFact>, b: map<string, CanonicalFact>) {
    a.Keys == b.Keys && forall id :: id in a ==> SameFact(a[id], b[id])
  }

  lemma WrittenKeys(inp: Input, hash: string -> string, facts: set<string>,
                    before: map<string, CanonicalFact>, after: map<string, CanonicalFact>)
    requires Written(inp, hash, facts, before, after)
    ensures after.Keys == before.Keys + set f | f in facts :: hash(f)
  {
  }

  lemma WrittenFact(inp: Input, hash: string -> string, before: map<string, CanonicalFact>,
                    after: map<string, CanonicalFact>, id: string)
    requires Written(inp, hash, LiveFacts(inp), before, after) && CollisionFree(hash, LiveFacts(inp))
    requires id in after
    ensures forall f :: f in LiveFacts(inp) && hash(f) == id ==> IsCanonical(hash, Survivors(inp, f), after[id])
  {
  }

  lemma SurvivorsAgree(inp: Input, f: string)
    ensures forall a :: a in Survivors(inp, f) ==> a.fact == f
  {
    forall a | a in Survivors(inp, f) ensures a.fact == f {
      EachSurvivorCountsOnce(inp, a, f);
    }
  }

  /** Two runs on the same inputs write the same facts, whatever the iteration order and the tie-breaking. */
  lemma OrderDoesNotMatter(inp: Input, hash: string -> string, before: map<string, CanonicalFact>,
                           a: map<string, CanonicalFact>, b: map<string, CanonicalFact>)
    requires CollisionFree(hash, LiveFacts(inp))
    requires Written(inp, hash, LiveFacts(inp), before, a) && Written(inp, hash, LiveFacts(inp), before, b)
    ensures SameFacts(a, b)
  {
    hide SameFact;
    WrittenKeys(inp, hash, LiveFacts(inp), before, a);
    WrittenKeys(inp, hash, LiveFacts(inp), before, b);
    hide Written;
    forall id | id in a && id in b ensures SameFact(a[id], b[id]) {
      SameAtId(inp, hash, before, before, a, b, id);
    }
  }

  /** A second run at the same time changes nothing. */
  lemma SecondRunChangesNothing(inp: Input, hash: string -> string, before: map<string, CanonicalFact>,
                                a: map<string, CanonicalFact>, b: map<string, CanonicalFact>)
    requires CollisionFree(hash, LiveFacts(inp))
    requires Written(inp, hash, LiveFacts(inp), before, a) && Written(inp, hash, LiveFacts(inp), a, b)
    ensures SameFacts(a, b)
  {
    hide SameFact;
    WrittenKeys(inp, hash, LiveFacts(inp), before, a);
    WrittenKeys(inp, hash, LiveFacts(inp), a, b);
    hide Written;
    forall id | id in a && id in b ensures SameFact(a[id], b[id]) {
      SameAtId(inp, hash, before, a, a, b, id);
    }
  }

  lemma SameAtId(inp: Input, hash: string -> string, before: map<string, CanonicalFact>, before': map<string, CanonicalFact>,
                 a: map<string, CanonicalFact>, b: map<string, CanonicalFact>, id: string)
    requires CollisionFree(hash, LiveFacts(inp))
    requires Written(inp, hash, LiveFacts(inp), before, a) && Written(inp, hash, LiveFacts(inp), before', b)
    requires id in a && id in b && (before' == before || before' == a)
    ensures SameFact(a[id], b[id])
  {
    WrittenFact(inp, hash, before, a, id);
    WrittenFact(inp, hash, before', b, id);
    if f :| f in LiveFacts(inp) && hash(f) == id {
      SurvivorsAgree(inp, f);
      CanonicalIsUnique(hash, Survivors(inp, f), a[id], b[id], f);
    }
  }

  class Consolidator {
    const config: Config
    const hash: string -> string
    var assertions: seq<RawAssertion>
    var contradictions: seq<Contradiction>
    var canonical: map<string, CanonicalFact>

    constructor (config: Config, hash: string -> string, assertions: seq<RawAssertion>, contradictions: seq<Contradiction>)
      ensures this.config == config && this.hash == hash
      ensures this.assertions == assertions && this.contradictions == contradictions && canonical == map[]
    {
      this.config := config;
      this.hash := hash;
      this.assertions := assertions;
      this.contradictions := contradictions;
      this.canonical := map[];
    }

    /** Groups the assertions by fact, then writes one canonical fact per group that has survivors.
        Facts written by earlier runs stay. */
    method Consolidate(now: int) returns (updated: nat)
      modifies this`canonical
      ensures var inp := Input(assertions, contradictions, config, now);
              && Written(inp, hash, LiveFacts(inp), old(canonical), canonical)
              && updated == |LiveFacts(inp)|
              && OnlyKeptFacts(inp, hash, old(canonical), canonical)
    {
      hide OnlyKeptFacts;
      hide Written;
      hide Survivors;
      hide LiveFacts;
      hide GroupOf;
      hide IsCanonical;
      ghost var inp := Input(assertions, contradictions, config, now);
      ghost var before := canonical;
      NothingWritten(inp, hash, before);
      var groups := GroupByFact(assertions);
      var left := groups.Keys;
      ghost var live := LiveFacts(inp);
      LiveFactsAreGrouped(inp);
      ghost var done: set<string> := {};
      updated := 0;
      while left != {}
        invariant left <= groups.Keys && done <= live <= done + left && done !! left
        invariant updated == |done|
        invariant Written(inp, hash, done, before, canonical)
        decreases left
      {
        var f :| f in left;
        left := left - {f};
        var cf := ConsolidateGroup(inp, hash, f, groups[f], contradictions, config, now);
        if cf.Some? {
          WriteOne(inp, hash, done, before, canonical, f, cf.value);
          canonical := canonical[cf.value.id := cf.value];
          updated := updated + 1;
          done := done + {f};
        }
      }
      assert done == live;
      WrittenFacts(inp, hash, before, canonical);
    }
  }

  /** There is a canonical fact for every surviving assertion, and nothing else is new or different. */
  ghost predicate OnlyKeptFacts(inp: Input, hash: string -> string, before: map<string, CanonicalFact>,
                                after: map<string, CanonicalFact>)
  {
    && (forall a :: a in inp.assertions && IsKept(inp, a) ==> hash(a.fact) in after)
    && (forall id :: id in before ==> id in after)
    && (forall id :: id in after ==>
          || (exists a :: a in inp.assertions && IsKept(inp, a) && hash(a.fact) == id)
          || (id in before && after[id] == before[id]))
  }

  lemma WrittenFacts(inp: Input, hash: string -> string, before: map<string, CanonicalFact>, after: map<string, CanonicalFact>)
    requires Written(inp, hash, LiveFacts(inp), before, after)
    ensures OnlyKeptFacts(inp, hash, before, after)
  {
    hide IsCanonical;
    hide Survivors;
    forall a ensures Survives(inp, a) <==> IsKept(inp, a) {
      SurvivesExactly(inp, a);
    }
    hide IsKept;
    hide Survives;
  }

  lemma LiveFactsAreGrouped(inp: Input)
    ensures LiveFacts(inp) <= set a | a in inp.assertions :: a.fact
  {
  }

  lemma NothingWritten(inp: Input, hash: string -> string, before: map<string, CanonicalFact>)
    ensures Written(inp, hash, {}, before, before)
  {
  }

  lemma BuiltIsCanonical(inp: Input, hash: string -> string, f: string, valid: seq<RawAssertion>, cf: CanonicalFact)
    requires multiset(valid) == Survivors(inp, f) && SortedBy(valid, Stronger)
    requires IsBuiltFrom(hash, valid, cf)
    ensures IsCanonical(hash, Survivors(inp, f), cf) && cf.id == hash(f)
  {
    assert valid[0] in multiset(valid);
    SurvivorsAgree(inp, f);
  }

  ghost function GroupOf(assertions: seq<RawAssertion>, f: string): seq<RawAssertion> {
    Filter(assertions, (a: RawAssertion) => a.fact == f)
  }

  ghost function ValidOf(inp: Input, group: seq<RawAssertion>): seq<RawAssertion> {
    Filter(group, (a: RawAssertion) => Survives(inp, a))
  }

  /** The group of a fact, sorted and stripped of contradicted assertions, is its bag of survivors. */
  lemma GroupSurvivors(inp: Input, f: string, group: seq<RawAssertion>, sorted: seq<RawAssertion>, valid: seq<RawAssertion>)
    requires group == GroupOf(inp.assertions, f)
    requires multiset(sorted) == multiset(group) && SortedBy(sorted, Stronger)
    requires valid == ValidOf(inp, sorted)
    ensures multiset(valid) == Survivors(inp, f) && SortedBy(valid, Stronger)
    ensures valid != [] <==> f in LiveFacts(inp)
  {
    var p, q := (a: RawAssertion) => a.fact == f, (a: RawAssertion) => Survives(inp, a);
    var pq := (a: RawAssertion) => a.fact == f && Survives(inp, a);
    FilterTwice(inp.assertions, sorted, p, q, pq);
    FilterSorted(sorted, q, Stronger);
    EachSurvivorCountsOnce(inp, RawAssertion("", "", "", 0.0, 0), f);
    assert |multiset(valid)| == |valid|;
  }

  /** One turn of the main loop: the canonical fact of a group, if any of its assertions survives. */
  method ConsolidateGroup(ghost inp: Input, hash: string -> string, ghost f: string, group: seq<RawAssertion>,
                          cts: seq<Contradiction>, config: Config, now: int) returns (cf: Option<CanonicalFact>)
    requires inp.contradictions == cts && inp.config == config && inp.now == now
    requires group == GroupOf(inp.assertions, f)
    ensures cf.Some? <==> f in LiveFacts(inp)
    ensures cf.Some? ==> IsCanonical(hash, Survivors(inp, f), cf.value) && cf.value.id == hash(f)
  {
    var sorted := SortSliceByStrength(group);
    var valid := DropContradicted(sorted, cts, config, now, inp);
    GroupSurvivors(inp, f, group, sorted, valid);
    if |valid| == 0 {
      return None;
    }
    var fact := Canonicalize(hash, valid);
    BuiltIsCanonical(inp, hash, f, valid, fact);
    return Some(fact);
  }

  method SortSliceByStrength(group: seq<RawAssertion>) returns (r: seq<RawAssertion>)
    ensures multiset(r) == multiset(group) && SortedBy(r, Stronger)
  {
    StrongerIsStrictWeak(group);
    r := SortSlice(group, Stronger);
  }

  method GroupByFact(assertions: seq<RawAssertion>) returns (groups: map<string, seq<RawAssertion>>)
    ensures groups.Keys == set a | a in assertions :: a.fact
    ensures forall f :: f in groups ==> groups[f] == GroupOf(assertions, f)
  {
    groups := map[];
    for i := 0 to |assertions|
      invariant groups.Keys == set a | a in assertions[..i] :: a.fact
      invariant forall f :: f in groups ==> groups[f] == GroupOf(assertions[..i], f)
    {
      var key := assertions[i].fact;
      ghost var next := assertions[..i + 1];
      assert next[..i] == assertions[..i] && next == assertions[..i] + [assertions[i]];
      if key !in groups {
        NoneMatch(assertions[..i], key);
      }
      groups := groups[key := (if key in groups then groups[key] else []) + [assertions[i]]];
    }
    assert assertions[..|assertions|] == assertions;
  }

  lemma {:induction false} NoneMatch(assertions: seq<RawAssertion>, f: string)
    requires forall a :: a in assertions ==> a.fact != f
    ensures GroupOf(assertions, f) == []
  {
    if assertions != [] {
      NoneMatch(assertions[..|assertions| - 1], f);
    }
  }

  method DropContradicted(group: seq<RawAssertion>, cts: seq<Contradiction>, config: Config, now: int, ghost inp: Input)
    returns (valid: seq<RawAssertion>)
    requires inp.contradictions == cts && inp.config == config && inp.now == now
    ensures valid == ValidOf(inp, group)
  {
    valid := [];
    for i := 0 to |group|
      invariant valid == ValidOf(inp, group[..i])
    {
      assert group[..i + 1][..i] == group[..i];
      var contradicted := IsContradicted(cts, group[i].id, config, now);
      if !contradicted {
        valid := valid + [group[i]];
      }
    }
    assert group[..|group|] == group;
  }

  method Canonicalize(hash: string -> string, valid: seq<RawAssertion>) returns (cf: CanonicalFact)
    requires valid != []
    ensures IsBuiltFrom(hash, valid, cf)
  {
    var sources, timestamps := [], [];
    for i := 0 to |valid|
      invariant |sources| == |timestamps| == i
      invariant forall j :: 0 <= j < i ==> sources[j] == valid[j].source && timestamps[j] == valid[j].timestamp
    {
      sources := sources + [valid[i].source];
      timestamps := timestamps + [valid[i].timestamp];
    }
    var sorted := SortSlice(timestamps, (x: int, y: int) => x < y);
    SortedHeadIsMinimum(timestamps, sorted);
    var confidence := MergeConfidence(valid);
    cf := CanonicalFact(hash(valid[0].fact), valid[0].fact, confidence, sources, sorted[0]);
    assert cf.sources == Map(valid, Source);
  }

  lemma SortedHeadIsMinimum(timestamps: seq<int>, sorted: seq<int>)
    requires timestamps != [] && multiset(sorted) == multiset(timestamps)
    requires SortedBy(sorted, (x: int, y: int) => x < y)
    ensures sorted != []
    ensures exists i :: 0 <= i < |timestamps| && timestamps[i] == sorted[0]
    ensures forall i :: 0 <= i < |timestamps| ==> sorted[0] <= timestamps[i]
  {
    SameSize(sorted, timestamps);
    assert sorted[0] in multiset(timestamps);
    forall i | 0 <= i < |timestamps| ensures sorted[0] <= timestamps[i] {
      assert timestamps[i] in multiset(sorted);
      var j :| 0 <= j < |sorted| && sorted[j] == timestamps[i];
    }
  }
}
