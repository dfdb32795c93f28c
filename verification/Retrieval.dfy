/** Hybrid retrieval (memory_retrieval.go), over exact reals: BM25 scoring, ranking, and reciprocal
    rank fusion. The tokenizer and the natural logarithm are parameters. */
module Retrieval {
  import opened Lists
  import opened MapSums
  import opened Options

  // ---------------------------------------------------------------- BM25

  /** All that is used of the logarithm: its sign. */
  ghost predicate IsLog(ln: real -> real) {
    (forall x :: x > 1.0 ==> ln(x) > 0.0) && (forall x :: 0.0 < x < 1.0 ==> ln(x) < 0.0)
  }

  function Freq(m: map<string, int>, t: string): int {
    if t in m then m[t] else 0
  }

  /** The documents among `ids` that contain the term. */
  ghost function Containing(docs: map<string, string>, tokenize: string -> seq<string>, ids: set<string>,
                            t: string): set<string> {
    set id | id in ids && id in docs && t in tokenize(docs[id])
  }

  ghost function DocFreq(docs: map<string, string>, tokenize: string -> seq<string>, t: string): nat {
    |Containing(docs, tokenize, docs.Keys, t)|
  }

  lemma DocFreqBounded(docs: map<string, string>, tokenize: string -> seq<string>, t: string)
    ensures 0 <= DocFreq(docs, tokenize, t) <= |docs|
  {
    SubsetSize(Containing(docs, tokenize, docs.Keys, t), docs.Keys);
    assert |docs.Keys| == |docs|;
  }

  lemma {:induction false} SubsetSize(a: set<string>, b: set<string>)
    requires a <= b
    ensures |a| <= |b|
  {
    if a != {} {
      var x :| x in a;
      SubsetSize(a - {x}, b - {x});
    }
  }

  /** The argument of the logarithm. */
  function IdfArgument(documentCount: int, df: int): real
    requires df >= 0
  {
    ((documentCount - df) as real + 0.5) / (df as real + 0.5) + 1.0
  }

  /** The logarithm is always defined. A term weighs in positively exactly as long as its document
      frequency is at most the document count, and negatively as soon as it is not. */
  lemma IdfSign(documentCount: nat, df: nat)
    ensures IdfArgument(documentCount, df) > 0.0
    ensures IdfArgument(documentCount, df) > 1.0 <==> df <= documentCount
    ensures IdfArgument(documentCount, df) < 1.0 <==> df > documentCount
  {
    var num, den := (documentCount - df) as real + 0.5, df as real + 0.5;
    var q := num / den;
    assert q * den == num;
    assert q > 0.0 ==> q * den > 0.0;
    assert q < 0.0 ==> q * den < 0.0;
    assert q <= -1.0 ==> q * den <= -den;
  }

  lemma QuotientNonNegative(n: real, d: real)
    requires n >= 0.0 && d > 0.0
    ensures n / d >= 0.0 && (n > 0.0 <==> n / d > 0.0)
  {
    var q := n / d;
    assert q * d == n;
    assert q < 0.0 ==> q * d < 0.0;
    assert q > 0.0 ==> q * d > 0.0;
  }

  lemma LargerQuotient(m: real, n: real, d: real)
    requires m < n && d > 0.0
    ensures m / d < n / d
  {
    var p, q := m / d, n / d;
    assert p * d == m && q * d == n;
    assert p >= q ==> p * d >= q * d;
  }

  lemma QuotientTimes(n: real, d: real)
    requires d > 0.0
    ensures n / d * d == n
  {
  }

  lemma CancelFactor(x: real, y: real, d: real)
    requires d > 0.0 && x * d <= y * d
    ensures x <= y
  {
    assert x > y ==> x * d > y * d;
  }

  lemma ProductAsReal(m: nat, n: nat)
    ensures (m * n) as real == m as real * n as real
  {
  }

  lemma MeanBetween(mean: real, n: nat, total: int, lo: nat, hi: nat)
    requires n > 0 && mean * n as real == total as real && lo * n <= total <= hi * n
    ensures lo as real <= mean <= hi as real
  {
    ProductAsReal(lo, n);
    ProductAsReal(hi, n);
    CancelFactor(lo as real, mean, n as real);
    CancelFactor(mean, hi as real, n as real);
  }

  function Denominator(k1: real, b: real, tf: real, relativeLength: real): real {
    tf + k1 * (1.0 - b + b * relativeLength)
  }

  lemma DenominatorPositive(k1: real, b: real, tf: real, relativeLength: real)
    requires k1 > 0.0 && 0.0 <= b < 1.0 && tf >= 0.0 && relativeLength >= 0.0
    ensures Denominator(k1, b, tf, relativeLength) > 0.0
  {
    assert b * relativeLength >= 0.0;
    var x := 1.0 - b + b * relativeLength;
    ProductSign(k1, x);
    assert Denominator(k1, b, tf, relativeLength) == tf + k1 * x;
  }

  /** What one query term adds to a document's score. */
  ghost function TermScore(ln: real -> real, k1: real, b: real, documentCount: int, df: int, tf: int, relativeLength: real): real
    requires df >= 0 && tf >= 0 && k1 > 0.0 && 0.0 <= b < 1.0 && relativeLength >= 0.0
  {
    DenominatorPositive(k1, b, tf as real, relativeLength);
    ln(IdfArgument(documentCount, df)) * (tf as real * (k1 + 1.0) / Denominator(k1, b, tf as real, relativeLength))
  }

  lemma TermScoreSign(ln: real -> real, k1: real, b: real, documentCount: nat, df: nat, tf: nat, relativeLength: real)
    requires IsLog(ln) && k1 > 0.0 && 0.0 <= b < 1.0 && relativeLength >= 0.0
    ensures var s := TermScore(ln, k1, b, documentCount, df, tf, relativeLength);
            if tf == 0 then s == 0.0 else if df <= documentCount then s > 0.0 else s < 0.0
  {
    IdfSign(documentCount, df);
    DenominatorPositive(k1, b, tf as real, relativeLength);
    var num, den := tf as real * (k1 + 1.0), Denominator(k1, b, tf as real, relativeLength);
    assert num >= 0.0 && (num > 0.0 <==> tf > 0);
    QuotientNonNegative(num, den);
    var idf := ln(IdfArgument(documentCount, df));
    if df <= documentCount {
      ProductSign(idf, num / den);
    } else {
      ProductSign(-idf, num / den);
      assert -idf * (num / den) == -(idf * (num / den));
    }
  }

  lemma ProductSign(x: real, y: real)
    requires x > 0.0 && y >= 0.0
    ensures x * y >= 0.0 && (x * y > 0.0 <==> y > 0.0)
  {
  }

  /** The published formula, without its two quotients: `x` is the argument of the logarithm. */
  lemma TermScoreFormula(ln: real -> real, k1: real, b: real, documentCount: int, df: nat, tf: nat, relativeLength: real, x: real)
    requires k1 > 0.0 && 0.0 <= b < 1.0 && relativeLength >= 0.0
    requires (x - 1.0) * (df as real + 0.5) == (documentCount - df) as real + 0.5
    ensures var s := TermScore(ln, k1, b, documentCount, df, tf, relativeLength);
            && tf as real + k1 * (1.0 - b + b * relativeLength) > 0.0
            && s * (tf as real + k1 * (1.0 - b + b * relativeLength)) == ln(x) * (tf as real * (k1 + 1.0))
  {
    DenominatorPositive(k1, b, tf as real, relativeLength);
    SameQuotient(x - 1.0, (documentCount - df) as real + 0.5, df as real + 0.5);
    ProductOfQuotient(ln(x), tf as real * (k1 + 1.0), Denominator(k1, b, tf as real, relativeLength));
  }

  lemma SameQuotient(q: real, n: real, d: real)
    requires d > 0.0 && q * d == n
    ensures q == n / d
  {
  }

  lemma ProductOfQuotient(a: real, n: real, d: real)
    requires d > 0.0
    ensures a * (n / d) * d == a * n
  {
    QuotientTimes(n, d);
    assert a * (n / d) * d == a * (n / d * d);
  }

  lemma LargerDivisorGivesLess(x: real, y: real, d: real, e: real)
    requires 0.0 < d < e && x * d == y * e && x * d > 0.0
    ensures y < x
  {
    assert x > 0.0 by { assert x <= 0.0 ==> x * d <= 0.0; }
    assert x * e > x * d;
    assert y >= x ==> y * e >= x * e;
  }

  lemma LongerDivisor(k1: real, b: real, tf: real, x: real, y: real)
    requires k1 > 0.0 && b > 0.0 && x < y
    ensures Denominator(k1, b, tf, x) < Denominator(k1, b, tf, y)
  {
    var p, q := 1.0 - b + b * x, 1.0 - b + b * y;
    assert b * (y - x) > 0.0;
    assert k1 * (q - p) > 0.0;
    assert k1 * (q - p) == k1 * q - k1 * p;
    assert Denominator(k1, b, tf, x) == tf + k1 * p && Denominator(k1, b, tf, y) == tf + k1 * q;
  }

  /** Of two documents in which a term occurs equally often the longer one scores strictly less. */
  lemma LongerScoresLess(ln: real -> real, k1: real, b: real, documentCount: nat, df: nat, tf: nat, x: real, y: real)
    requires IsLog(ln) && k1 > 0.0 && 0.0 < b < 1.0 && 0 < tf && df <= documentCount && 0.0 <= x < y
    ensures TermScore(ln, k1, b, documentCount, df, tf, y) < TermScore(ln, k1, b, documentCount, df, tf, x)
  {
    var a, n := ln(IdfArgument(documentCount, df)), tf as real * (k1 + 1.0);
    var d, e := Denominator(k1, b, tf as real, x), Denominator(k1, b, tf as real, y);
    DenominatorPositive(k1, b, tf as real, x);
    DenominatorPositive(k1, b, tf as real, y);
    TermScoreSign(ln, k1, b, documentCount, df, tf, x);
    LongerDivisor(k1, b, tf as real, x, y);
    ProductOfQuotient(a, n, d);
    ProductOfQuotient(a, n, e);
    PositiveTimes(a * (n / d), d);
    LargerDivisorGivesLess(a * (n / d), a * (n / e), d, e);
  }

  lemma PositiveTimes(x: real, y: real)
    requires x > 0.0 && y > 0.0
    ensures x * y > 0.0
  {
  }

  /** What is missing from the limit `a`, with `m` standing for the part of the divisor that is not `t`. */
  lemma Missing(a: real, s: real, t: real, m: real, d: real, x: real)
    requires s * d == a * t && d == t + m && x == a - s
    ensures x * d == a * m
  {
    assert (a - s) * d == a * d - s * d;
    assert a * (t + m) == a * t + a * m;
  }

  lemma Grows(a: real, s: real, s': real, t: real, t': real, m: real, d: real, d': real, x: real, x': real)
    requires a > 0.0 && m > 0.0 && 0.0 <= t < t' && s * d == a * t && s' * d' == a * t'
    requires d == t + m && d' == t' + m && x == a - s && x' == a - s'
    ensures s < s' < a
  {
    Missing(a, s, t, m, d, x);
    Missing(a, s', t', m, d', x');
    PositiveTimes(a, m);
    LargerDivisorGivesLess(x, x', d, d');
    PositiveQuotient(x', d');
  }

  lemma ShareOfLimit(ln: real -> real, k1: real, b: real, documentCount: nat, df: nat, tf: nat, relativeLength: real,
                     a: real, m: real)
    requires k1 > 0.0 && 0.0 <= b < 1.0 && relativeLength >= 0.0
    requires a == ln(IdfArgument(documentCount, df)) * (k1 + 1.0) && m == Denominator(k1, b, 0.0, relativeLength)
    ensures TermScore(ln, k1, b, documentCount, df, tf, relativeLength) * (tf as real + m) == a * tf as real
  {
    var idf, t := ln(IdfArgument(documentCount, df)), tf as real;
    DenominatorPositive(k1, b, t, relativeLength);
    assert Denominator(k1, b, t, relativeLength) == t + m;
    ProductOfQuotient(idf, t * (k1 + 1.0), t + m);
    assert idf * (t * (k1 + 1.0)) == idf * (k1 + 1.0) * t;
  }

  /** A term's score grows strictly with its frequency in the document, and stays below a limit. */
  lemma MoreOftenScoresMore(ln: real -> real, k1: real, b: real, documentCount: nat, df: nat, tf: nat, tf': nat,
                            relativeLength: real)
    requires IsLog(ln) && k1 > 0.0 && 0.0 <= b < 1.0 && tf < tf' && df <= documentCount && relativeLength >= 0.0
    ensures TermScore(ln, k1, b, documentCount, df, tf, relativeLength)
          < TermScore(ln, k1, b, documentCount, df, tf', relativeLength)
          < ln(IdfArgument(documentCount, df)) * (k1 + 1.0)
  {
    var idf, m := ln(IdfArgument(documentCount, df)), Denominator(k1, b, 0.0, relativeLength);
    DenominatorPositive(k1, b, 0.0, relativeLength);
    IdfSign(documentCount, df);
    hide TermScore;
    hide Denominator;
    hide IdfArgument;
    PositiveTimes(idf, k1 + 1.0);
    ShareOfLimit(ln, k1, b, documentCount, df, tf, relativeLength, idf * (k1 + 1.0), m);
    ShareOfLimit(ln, k1, b, documentCount, df, tf', relativeLength, idf * (k1 + 1.0), m);
    var a, s := idf * (k1 + 1.0), TermScore(ln, k1, b, documentCount, df, tf, relativeLength);
    var s' := TermScore(ln, k1, b, documentCount, df, tf', relativeLength);
    Grows(a, s, s', tf as real, tf' as real, m, tf as real + m, tf' as real + m, a - s, a - s');
  }

  lemma PositiveQuotient(x: real, d: real)
    requires d > 0.0 && x * d > 0.0
    ensures x > 0.0
  {
    assert x <= 0.0 ==> x * d <= 0.0;
  }

  class BM25Scorer {
    const k1: real
    const b: real
    const tokenize: string -> seq<string>
    var documentCount: int
    var avgDocLength: real
    var termDocFreq: map<string, int>
    var documentLengths: map<string, int>
    var documents: map<string, string>

    constructor (k1: real, b: real, tokenize: string -> seq<string>)
      ensures this.k1 == k1 && this.b == b && this.tokenize == tokenize
      ensures termDocFreq == map[] && documentLengths == map[] && documents == map[] && documentCount == 0
      ensures avgDocLength == 0.0 && Valid()
    {
      this.k1, this.b, this.tokenize := k1, b, tokenize;
      this.documentCount, this.avgDocLength := 0, 0.0;
      this.termDocFreq, this.documentLengths, this.documents := map[], map[], map[];
    }

    ghost function LengthOf(): string -> int {
      (text: string) => |tokenize(text)|
    }

    /** Kept by every indexing: lengths and average describe the documents, and every term of a document
        is counted, though a count may also stem from documents indexed earlier. */
    ghost predicate Valid()
      reads this
    {
      && documentCount == |documents|
      && (forall t :: Freq(termDocFreq, t) >= DocFreq(documents, tokenize, t))
      && (forall id :: id in documents ==> id in documentLengths && documentLengths[id] == |tokenize(documents[id])|)
      && avgDocLength * documentCount as real == Sum(documents, LengthOf()) as real
    }

    /** The index describes its documents and nothing else. */
    ghost predicate Indexed()
      reads this
    {
      Valid() && forall t :: Freq(termDocFreq, t) == DocFreq(documents, tokenize, t)
    }

    /** Counts one document's distinct terms. */
    method CountTerms(terms: seq<string>)
      modifies this`termDocFreq
      ensures forall t :: Freq(termDocFreq, t) == Freq(old(termDocFreq), t) + if t in terms then 1 else 0
    {
      var seen: set<string> := {};
      for i := 0 to |terms|
        invariant seen == set t | t in terms[..i]
        invariant forall t :: Freq(termDocFreq, t) == Freq(old(termDocFreq), t) + if t in terms[..i] then 1 else 0
      {
        assert terms[..i + 1] == terms[..i] + [terms[i]];
        if terms[i] !in seen {
          termDocFreq := termDocFreq[terms[i] := Freq(termDocFreq, terms[i]) + 1];
          seen := seen + {terms[i]};
        }
      }
      assert terms[..|terms|] == terms;
    }

    /** Indexing adds to the term counts that are already there, and replaces everything else. So the
        index is right exactly when no term was counted before. */
    method IndexDocuments(docs: map<string, string>)
      requires Valid()
      modifies this
      ensures Valid()
      ensures documents == docs && documentCount == |docs|
      ensures forall id :: id in docs ==> id in documentLengths && documentLengths[id] == |tokenize(docs[id])|
      ensures forall t :: Freq(termDocFreq, t) == Freq(old(termDocFreq), t) + DocFreq(docs, tokenize, t)
      ensures docs != map[] ==> avgDocLength * |docs| as real == Sum(docs, LengthOf()) as real
      ensures docs == map[] ==> avgDocLength == old(avgDocLength)
      ensures Indexed() <==> forall t :: Freq(old(termDocFreq), t) == 0
    {
      hide Sum;
      hide DocFreq;
      hide Freq;
      hide Indexed;
      hide Valid;
      ghost var before := termDocFreq;
      CountsNonNegative();
      documents := docs;
      documentCount := |docs|;
      var totalLength := IndexAll(docs);
      if documentCount > 0 {
        avgDocLength := totalLength as real / documentCount as real;
        hide *;
        QuotientTimes(totalLength as real, documentCount as real);
      }
      FreshExactly(before);
    }

    /** The loop over the documents, in whatever order the map yields them. */
    method IndexAll(docs: map<string, string>) returns (totalLength: int)
      modifies this`termDocFreq, this`documentLengths
      ensures forall id :: id in docs ==> id in documentLengths && documentLengths[id] == |tokenize(docs[id])|
      ensures forall t :: Freq(termDocFreq, t) == Freq(old(termDocFreq), t) + DocFreq(docs, tokenize, t)
      ensures totalLength == Sum(docs, LengthOf())
    {
      hide CountsAre;
      hide Sum;
      hide Freq;
      hide DocFreq;
      hide LengthOf;
      totalLength := 0;
      var left := docs.Keys;
      ghost var done: set<string> := {};
      NothingDone(docs);
      while left != {}
        invariant done + left == docs.Keys && done !! left
        invariant forall id :: id in done ==> id in documentLengths && documentLengths[id] == |tokenize(docs[id])|
        invariant CountsAre(old(termDocFreq), docs, done, termDocFreq)
        invariant totalLength == Sum(docs - left, LengthOf())
        decreases left
      {
        var id :| id in left;
        ghost var counts := termDocFreq;
        var n := IndexOne(id, docs[id]);
        OneMoreDone(docs, done, left, id, old(termDocFreq), counts, termDocFreq);
        totalLength := totalLength + n;
        left := left - {id};
        done := done + {id};
      }
      AllDone(docs, old(termDocFreq), termDocFreq);
      assert done == docs.Keys;
    }

    /** `counts` is `before` plus, for every term, the number of documents of `ids` that contain it. */
    ghost predicate CountsAre(before: map<string, int>, docs: map<string, string>, ids: set<string>, counts: map<string, int>) {
      forall t :: Freq(counts, t) == Freq(before, t) + |Containing(docs, tokenize, ids, t)|
    }

    method IndexOne(id: string, text: string) returns (n: int)
      modifies this`termDocFreq, this`documentLengths
      ensures n == |tokenize(text)| && documentLengths == old(documentLengths)[id := n]
      ensures forall t :: Freq(termDocFreq, t) == Freq(old(termDocFreq), t) + if t in tokenize(text) then 1 else 0
    {
      var terms := tokenize(text);
      n := |terms|;
      documentLengths := documentLengths[id := n];
      CountTerms(terms);
    }

    lemma NothingDone(docs: map<string, string>)
      ensures forall counts :: CountsAre(counts, docs, {}, counts)
      ensures Sum(docs - docs.Keys, LengthOf()) == 0
    {
      forall t ensures |Containing(docs, tokenize, {}, t)| == 0 {
        assert Containing(docs, tokenize, {}, t) == {};
      }
      assert docs - docs.Keys == map[];
    }

    lemma OneMoreDone(docs: map<string, string>, done: set<string>, left: set<string>, id: string,
                      before: map<string, int>, counts: map<string, int>, counts': map<string, int>)
      requires id in left && done + left == docs.Keys && done !! left
      requires CountsAre(before, docs, done, counts)
      requires forall t :: Freq(counts', t) == Freq(counts, t) + if t in tokenize(docs[id]) then 1 else 0
      ensures CountsAre(before, docs, done + {id}, counts')
      ensures Sum(docs - (left - {id}), LengthOf()) == Sum(docs - left, LengthOf()) + |tokenize(docs[id])|
    {
      forall t ensures Freq(counts', t) == Freq(before, t) + |Containing(docs, tokenize, done + {id}, t)| {
        ContainingOneMore(docs, tokenize, done, id, t);
      }
      SumRemove(docs - (left - {id}), LengthOf(), id);
      assert docs - (left - {id}) - {id} == docs - left;
    }

    lemma AllDone(docs: map<string, string>, before: map<string, int>, counts: map<string, int>)
      ensures docs - {} == docs
      ensures CountsAre(before, docs, docs.Keys, counts) ==>
                forall t :: Freq(counts, t) == Freq(before, t) + DocFreq(docs, tokenize, t)
    {
    }

    lemma ContainingOneMore(docs: map<string, string>, tokenize: string -> seq<string>, ids: set<string>, id: string, t: string)
      requires id in docs && id !in ids
      ensures |Containing(docs, tokenize, ids + {id}, t)| ==
              |Containing(docs, tokenize, ids, t)| + if t in tokenize(docs[id]) then 1 else 0
    {
      assert Containing(docs, tokenize, ids + {id}, t) ==
             Containing(docs, tokenize, ids, t) + if t in tokenize(docs[id]) then {id} else {};
    }

    lemma CountsNonNegative()
      requires Valid()
      ensures forall t :: Freq(termDocFreq, t) >= 0
    {
      forall t ensures Freq(termDocFreq, t) >= 0 {
        DocFreqBounded(documents, tokenize, t);
      }
    }

    lemma FreshExactly(before: map<string, int>)
      requires documentCount == |documents|
      requires forall t :: Freq(before, t) >= 0
      requires forall t :: Freq(termDocFreq, t) == Freq(before, t) + DocFreq(documents, tokenize, t)
      requires forall id :: id in documents ==> id in documentLengths && documentLengths[id] == |tokenize(documents[id])|
      requires documents != map[] ==> avgDocLength * |documents| as real == Sum(documents, LengthOf()) as real
      ensures Valid()
      ensures Indexed() <==> forall t :: Freq(before, t) == 0
    {
      hide DocFreq;
      hide Freq;
      if documents == map[] {
        EmptyTotal(avgDocLength, documentCount, documents);
      }
    }

    lemma EmptyTotal(average: real, count: int, docs: map<string, string>)
      requires count == 0 && docs == map[]
      ensures average * count as real == Sum(docs, LengthOf()) as real
    {
    }

    function Length(docID: string): int
      reads this
    {
      if docID in documentLengths then documentLengths[docID] else 0
    }

    lemma AverageNonNegative()
      requires Valid() && documents != map[]
      ensures avgDocLength >= 0.0
    {
      SumNonNegative(documents, LengthOf());
      var n := documentCount as real;
      assert n > 0.0;
      assert avgDocLength < 0.0 ==> avgDocLength * n < 0.0;
    }

    /** The average is zero exactly when no document has a term. */
    lemma AverageIsZeroExactly()
      requires Valid() && documents != map[]
      ensures avgDocLength == 0.0 <==> forall id :: id in documents ==> tokenize(documents[id]) == []
    {
      var n := documentCount as real;
      assert n > 0.0;
      if forall id :: id in documents ==> tokenize(documents[id]) == [] {
        SumZero(documents, LengthOf());
        assert avgDocLength > 0.0 ==> avgDocLength * n > 0.0;
        assert avgDocLength < 0.0 ==> avgDocLength * n < 0.0;
      } else {
        var id :| id in documents && tokenize(documents[id]) != [];
        SumAtLeast(documents, LengthOf(), id);
      }
    }

    /** It lies between the shortest and the longest document, in terms. */
    lemma AverageBetween(lo: nat, hi: nat)
      requires Valid() && documents != map[]
      requires forall id :: id in documents ==> lo <= |tokenize(documents[id])| <= hi
      ensures lo as real <= avgDocLength <= hi as real
    {
      hide *;
      TermsBetween(lo, hi);
      AverageOfTerms();
      MeanBetween(avgDocLength, |documents|, Sum(documents, LengthOf()), lo, hi);
    }

    lemma TermsBetween(lo: nat, hi: nat)
      requires forall id :: id in documents ==> lo <= |tokenize(documents[id])| <= hi
      ensures lo * |documents| <= Sum(documents, LengthOf()) <= hi * |documents|
    {
      hide Sum;
      SumBetween(documents, LengthOf(), lo, hi);
    }

    lemma AverageOfTerms()
      requires Valid()
      ensures avgDocLength * |documents| as real == Sum(documents, LengthOf()) as real
    {
      hide Sum;
    }

    ghost function RelativeLength(docID: string): (r: real)
      requires Valid() && avgDocLength > 0.0 && docID in documents
      reads this
      ensures r >= 0.0
    {
      QuotientNonNegative(documentLengths[docID] as real, avgDocLength);
      documentLengths[docID] as real / avgDocLength
    }

    /** Some term was counted, but the average it is divided by is zero: the score is not a number. */
    ghost predicate Undefined(terms: seq<string>)
      reads this
    {
      avgDocLength == 0.0 && exists t :: t in terms && Freq(termDocFreq, t) > 0
    }

    /** Such queries exist exactly when no document has a term and yet some term is counted. In a fresh
        index there are none. */
    lemma UndefinedExactly()
      requires Valid() && documents != map[]
      ensures (exists terms :: Undefined(terms)) <==>
              (forall id :: id in documents ==> tokenize(documents[id]) == []) && exists t :: Freq(termDocFreq, t) > 0
      ensures Indexed() ==> forall terms :: !Undefined(terms)
    {
      AverageIsZeroExactly();
      if t :| Freq(termDocFreq, t) > 0 {
        assert t in [t];
        assert avgDocLength == 0.0 ==> Undefined([t]);
        if Indexed() {
          assert Containing(documents, tokenize, documents.Keys, t) != {};
          var id :| id in Containing(documents, tokenize, documents.Keys, t);
        }
      }
    }

    /** What one query term contributes: nothing if it is not counted. */
    ghost function TermShare(ln: real -> real, t: string, docID: string): real
      requires Valid() && k1 > 0.0 && 0.0 <= b < 1.0 && docID in documents
      requires Freq(termDocFreq, t) > 0 ==> avgDocLength > 0.0
      reads this
    {
      CountsNonNegative();
      var df := Freq(termDocFreq, t);
      if df == 0 then 0.0
      else TermScore(ln, k1, b, documentCount, df, multiset(tokenize(documents[docID]))[t], RelativeLength(docID))
    }

    /** The textbook score: a sum over the query's terms that occur anywhere in the index. */
    ghost function BM25(ln: real -> real, terms: seq<string>, docID: string): real
      requires Valid() && k1 > 0.0 && 0.0 <= b < 1.0 && docID in documents && !Undefined(terms)
      reads this
    {
      if terms == [] then 0.0 else
        var n, t := |terms| - 1, terms[|terms| - 1];
        PrefixDefined(terms, n);
        BM25(ln, terms[..n], docID) + TermShare(ln, t, docID)
    }

    lemma PrefixDefined(terms: seq<string>, i: nat)
      requires Valid() && documents != map[] && !Undefined(terms) && i <= |terms|
      ensures !Undefined(terms[..i])
      ensures i < |terms| && Freq(termDocFreq, terms[i]) > 0 ==> avgDocLength > 0.0
    {
      AverageNonNegative();
    }

    /** Every occurrence of a query term counts, and none depends on the others. */
    lemma {:induction false} ScoreAdds(ln: real -> real, xs: seq<string>, ys: seq<string>, docID: string)
      requires Valid() && k1 > 0.0 && 0.0 <= b < 1.0 && docID in documents && !Undefined(xs + ys)
      ensures !Undefined(xs) && !Undefined(ys)
      ensures BM25(ln, xs + ys, docID) == BM25(ln, xs, docID) + BM25(ln, ys, docID)
    {
      hide Valid;
      hide TermShare;
      PartsDefined(xs, ys);
      if ys == [] {
        assert xs + ys == xs;
      } else {
        var n, t := |ys| - 1, ys[|ys| - 1];
        assert xs + ys == (xs + ys[..n]) + [t];
        PrefixDefined(xs + ys, |xs| + n);
        assert (xs + ys)[..|xs| + n] == xs + ys[..n];
        PrefixDefined(ys, n);
        ScoreAdds(ln, xs, ys[..n], docID);
      }
    }

    lemma PartsDefined(xs: seq<string>, ys: seq<string>)
      requires !Undefined(xs + ys)
      ensures !Undefined(xs) && !Undefined(ys)
    {
    }

    /** The score for one term by the published formula: `x` is the argument of the logarithm, and
        `relative` the document's length over the average one. */
    lemma OneTermScore(ln: real -> real, t: string, docID: string, df: nat, tf: nat, x: real, relative: real)
      requires Valid() && k1 > 0.0 && 0.0 <= b < 1.0 && docID in documents && t in tokenize(documents[docID])
      requires df == Freq(termDocFreq, t) && tf == multiset(tokenize(documents[docID]))[t]
      requires (x - 1.0) * (df as real + 0.5) == (|documents| - df) as real + 0.5
      requires relative * avgDocLength == |tokenize(documents[docID])| as real
      ensures !Undefined([t])
      ensures BM25(ln, [t], docID) * (tf as real + k1 * (1.0 - b + b * relative)) == ln(x) * (tf as real * (k1 + 1.0))
    {
      hide *;
      OwnTermCounts(t, docID);
      SingleTerm(ln, t, docID);
      ShareAtRelative(ln, t, docID, relative);
      TermScoreFormula(ln, k1, b, |documents|, df, tf, relative, x);
    }

    lemma ShareAtRelative(ln: real -> real, t: string, docID: string, relative: real)
      requires Valid() && k1 > 0.0 && 0.0 <= b < 1.0 && docID in documents && avgDocLength > 0.0
      requires Freq(termDocFreq, t) > 0 && relative * avgDocLength == |tokenize(documents[docID])| as real
      ensures relative >= 0.0
      ensures TermShare(ln, t, docID) == TermScore(ln, k1, b, |documents|, Freq(termDocFreq, t),
                                                   multiset(tokenize(documents[docID]))[t], relative)
    {
      hide TermScore;
      SameQuotient(relative, |tokenize(documents[docID])| as real, avgDocLength);
      assert relative == RelativeLength(docID);
    }

    lemma SingleTerm(ln: real -> real, t: string, docID: string)
      requires Valid() && k1 > 0.0 && 0.0 <= b < 1.0 && docID in documents && avgDocLength > 0.0
      ensures !Undefined([t]) && BM25(ln, [t], docID) == TermShare(ln, t, docID)
    {
      hide Valid;
      hide TermShare;
      assert [t][..0] == [];
    }

    lemma TermShareSign(ln: real -> real, t: string, docID: string)
      requires IsLog(ln) && Valid() && k1 > 0.0 && 0.0 <= b < 1.0 && docID in documents
      requires Freq(termDocFreq, t) > 0 ==> avgDocLength > 0.0
      ensures var s := TermShare(ln, t, docID);
              if t !in tokenize(documents[docID]) then s == 0.0
              else if Freq(termDocFreq, t) <= documentCount then s > 0.0
              else s < 0.0
    {
      CountsNonNegative();
      if t in tokenize(documents[docID]) {
        OwnTermCounts(t, docID);
      }
      var df := Freq(termDocFreq, t);
      if df > 0 {
        TermScoreSign(ln, k1, b, documentCount, df, multiset(tokenize(documents[docID]))[t], RelativeLength(docID));
      }
    }

    /** Length normalisation: of two documents that contain a term equally often, the one with more terms
        scores strictly less for it. */
    lemma LongerDocumentScoresLess(ln: real -> real, t: string, short: string, long: string)
      requires IsLog(ln) && Valid() && k1 > 0.0 && 0.0 < b < 1.0 && short in documents && long in documents
      requires t in tokenize(documents[short]) && Freq(termDocFreq, t) <= documentCount
      requires multiset(tokenize(documents[short]))[t] == multiset(tokenize(documents[long]))[t]
      requires |tokenize(documents[short])| < |tokenize(documents[long])|
      ensures Freq(termDocFreq, t) > 0 && avgDocLength > 0.0
      ensures TermShare(ln, t, long) < TermShare(ln, t, short)
    {
      OwnTermCounts(t, short);
      LargerQuotient(documentLengths[short] as real, documentLengths[long] as real, avgDocLength);
      LongerScoresLess(ln, k1, b, documentCount, Freq(termDocFreq, t), multiset(tokenize(documents[short]))[t],
                       RelativeLength(short), RelativeLength(long));
    }

    lemma OwnTermCounts(t: string, docID: string)
      requires Valid() && docID in documents && t in tokenize(documents[docID])
      ensures Freq(termDocFreq, t) > 0 && avgDocLength > 0.0
    {
      assert docID in Containing(documents, tokenize, documents.Keys, t);
      AverageNonNegative();
      AverageIsZeroExactly();
    }

    /** Is every term of the document counted at most once for each document? */
    ghost predicate SoundFor(docID: string)
      requires docID in documents
      reads this
    {
      forall t :: t in tokenize(documents[docID]) ==> Freq(termDocFreq, t) <= documentCount
    }

    lemma {:induction false} ScoreSign(ln: real -> real, terms: seq<string>, docID: string)
      requires IsLog(ln) && Valid() && k1 > 0.0 && 0.0 <= b < 1.0 && docID in documents && !Undefined(terms)
      requires SoundFor(docID)
      ensures BM25(ln, terms, docID) >= 0.0
      ensures BM25(ln, terms, docID) > 0.0 <==> exists t :: t in terms && t in tokenize(documents[docID])
    {
      hide Valid;
      hide TermShare;
      if terms != [] {
        var n, t := |terms| - 1, terms[|terms| - 1];
        PrefixDefined(terms, n);
        ScoreSign(ln, terms[..n], docID);
        TermShareSign(ln, t, docID);
        assert terms == terms[..n] + [t];
      }
    }

    /** No query scores the document negatively, exactly when none of its terms is counted more often
        than there are documents. */
    lemma NeverNegativeExactly(ln: real -> real, docID: string)
      requires IsLog(ln) && Valid() && k1 > 0.0 && 0.0 <= b < 1.0 && docID in documents
      ensures (forall terms :: !Undefined(terms) ==> BM25(ln, terms, docID) >= 0.0) <==> SoundFor(docID)
    {
      hide Valid;
      hide TermShare;
      if SoundFor(docID) {
        forall terms | !Undefined(terms) ensures BM25(ln, terms, docID) >= 0.0 {
          ScoreSign(ln, terms, docID);
        }
      } else {
        var t :| t in tokenize(documents[docID]) && Freq(termDocFreq, t) > documentCount;
        OverCountedTerm(ln, t, docID);
      }
    }

    lemma OverCountedTerm(ln: real -> real, t: string, docID: string)
      requires IsLog(ln) && Valid() && k1 > 0.0 && 0.0 <= b < 1.0 && docID in documents
      requires t in tokenize(documents[docID]) && Freq(termDocFreq, t) > documentCount
      ensures !Undefined([t]) && BM25(ln, [t], docID) < 0.0
    {
      hide Valid;
      hide TermShare;
      OwnTermCounts(t, docID);
      TermShareSign(ln, t, docID);
      assert [t][..0] == [];
    }

    /** A fresh index is sound for all its documents. */
    lemma IndexedIsSound(docID: string)
      requires Indexed() && docID in documents
      ensures SoundFor(docID)
      ensures forall terms :: !Undefined(terms)
    {
      forall t ensures Freq(termDocFreq, t) <= documentCount {
        DocFreqBounded(documents, tokenize, t);
      }
      UndefinedExactly();
    }

    method CountFrequencies(terms: seq<string>) returns (freqs: map<string, int>)
      ensures forall t :: Freq(freqs, t) == multiset(terms)[t]
    {
      freqs := map[];
      for i := 0 to |terms|
        invariant forall t :: Freq(freqs, t) == multiset(terms[..i])[t]
      {
        assert terms[..i + 1] == terms[..i] + [terms[i]];
        freqs := freqs[terms[i] := Freq(freqs, terms[i]) + 1];
      }
      assert terms[..|terms|] == terms;
    }

    lemma ScoreStart(ln: real -> real, docID: string)
      requires Valid() && k1 > 0.0 && 0.0 <= b < 1.0 && docID in documents
      ensures !Undefined([]) && BM25(ln, [], docID) == 0.0
    {
    }

    /** The state of Score's loop after `i` terms. */
    ghost predicate ScoreSoFar(ln: real -> real, terms: seq<string>, docID: string, i: nat, score: Option<real>)
      requires Valid() && k1 > 0.0 && 0.0 <= b < 1.0 && docID in documents && i <= |terms|
      reads this
    {
      if Undefined(terms[..i]) then score == None else score == Some(BM25(ln, terms[..i], docID))
    }

    lemma ScoreStep(ln: real -> real, terms: seq<string>, i: nat, docID: string, score: Option<real>)
      requires Valid() && k1 > 0.0 && 0.0 <= b < 1.0 && docID in documents && i < |terms|
      requires ScoreSoFar(ln, terms, docID, i, score)
      ensures Freq(termDocFreq, terms[i]) == 0 ==> ScoreSoFar(ln, terms, docID, i + 1, score)
      ensures Freq(termDocFreq, terms[i]) > 0 && avgDocLength == 0.0 ==> ScoreSoFar(ln, terms, docID, i + 1, None)
      ensures Freq(termDocFreq, terms[i]) > 0 && avgDocLength > 0.0 ==>
                && score.Some?
                && ScoreSoFar(ln, terms, docID, i + 1, Some(score.value + TermShare(ln, terms[i], docID)))
    {
      hide Valid;
      hide TermScore;
      var next := terms[..i + 1];
      assert next[..i] == terms[..i] && next[i] == terms[i];
      assert next == terms[..i] + [terms[i]];
      if !Undefined(next) {
        PrefixDefined(next, i);
      }
    }

    /** The arithmetic for one query term; None is the quotient of zero by zero. */
    method ScoreTerm(ln: real -> real, tf: nat, df: nat, docLength: real) returns (s: Option<real>)
      requires df > 0 && docLength >= 0.0 && avgDocLength >= 0.0 && k1 > 0.0 && 0.0 <= b < 1.0
      ensures avgDocLength == 0.0 ==> s == None
      ensures avgDocLength > 0.0 ==>
                && docLength / avgDocLength >= 0.0
                && s == Some(TermScore(ln, k1, b, documentCount, df, tf, docLength / avgDocLength))
    {
      var idf := ln(((documentCount - df) as real + 0.5) / (df as real + 0.5) + 1.0);
      var numerator := tf as real * (k1 + 1.0);
      if avgDocLength == 0.0 {
        return None;
      }
      var relative := docLength / avgDocLength;
      QuotientNonNegative(docLength, avgDocLength);
      DenominatorPositive(k1, b, tf as real, relative);
      var denominator := tf as real + k1 * (1.0 - b + b * relative);
      assert denominator == Denominator(k1, b, tf as real, relative);
      assert idf == ln(IdfArgument(documentCount, df));
      var quotient := numerator / denominator;
      assert quotient == tf as real * (k1 + 1.0) / Denominator(k1, b, tf as real, relative);
      var share := idf * quotient;
      assert share == TermScore(ln, k1, b, documentCount, df, tf, relative);
      return Some(share);
    }

    /** None is Go's NaN. On a fresh index the score is always a number, never negative, and positive
        exactly when the document contains a query term. */
    method Score(ln: real -> real, query: string, docID: string) returns (score: Option<real>)
      requires IsLog(ln) && Valid() && k1 > 0.0 && 0.0 <= b < 1.0
      ensures docID !in documents ==> score == Some(0.0)
      ensures docID in documents ==>
                if Undefined(tokenize(query)) then score == None else score == Some(BM25(ln, tokenize(query), docID))
      ensures docID in documents && SoundFor(docID) && score.Some? ==> score.value >= 0.0
      ensures Indexed() ==>
                && score.Some? && score.value >= 0.0
                && (score.value > 0.0 <==>
                      docID in documents && exists t :: t in tokenize(query) && t in tokenize(documents[docID]))
    {
      hide ScoreSoFar;
      hide TermScore;
      hide TermShare;
      hide BM25;
      hide Valid;
      hide Undefined;
      hide SoundFor;
      hide Indexed;
      var queryTerms := tokenize(query);
      if docID !in documents {
        return Some(0.0);
      }
      LengthIs(docID);
      var termFreqs := CountFrequencies(tokenize(documents[docID]));
      score := Some(0.0);
      var docLength := Length(docID) as real;
      ScoreBegins(ln, queryTerms, docID);
      for i := 0 to |queryTerms|
        invariant ScoreSoFar(ln, queryTerms, docID, i, score)
      {
        ScoreStep(ln, queryTerms, i, docID, score);
        var tf, df := Freq(termFreqs, queryTerms[i]), Freq(termDocFreq, queryTerms[i]);
        if df == 0 {
          continue;
        }
        var s := ScoreTerm(ln, tf, df, docLength);
        ShareIs(ln, queryTerms[i], docID);
        score := if score.Some? && s.Some? then Some(score.value + s.value) else None;
      }
      ScoreResult(ln, queryTerms, docID, score);
    }

    lemma LengthIs(docID: string)
      requires Valid() && docID in documents
      ensures Length(docID) >= 0 && avgDocLength >= 0.0
      ensures forall t :: Freq(termDocFreq, t) >= 0
    {
      CountsNonNegative();
      AverageNonNegative();
    }

    lemma ShareIs(ln: real -> real, t: string, docID: string)
      requires Valid() && k1 > 0.0 && 0.0 <= b < 1.0 && docID in documents
      ensures Freq(termDocFreq, t) > 0 && avgDocLength > 0.0 ==>
                && Length(docID) as real / avgDocLength >= 0.0
                && TermShare(ln, t, docID) == TermScore(ln, k1, b, documentCount, Freq(termDocFreq, t),
                                                        multiset(tokenize(documents[docID]))[t],
                                                        Length(docID) as real / avgDocLength)
    {
      hide TermScore;
      if avgDocLength > 0.0 {
        QuotientNonNegative(Length(docID) as real, avgDocLength);
      }
    }

    lemma ScoreBegins(ln: real -> real, terms: seq<string>, docID: string)
      requires Valid() && k1 > 0.0 && 0.0 <= b < 1.0 && docID in documents
      ensures ScoreSoFar(ln, terms, docID, 0, Some(0.0))
    {
      ScoreStart(ln, docID);
      assert terms[..0] == [];
    }

    lemma ScoreResult(ln: real -> real, terms: seq<string>, docID: string, score: Option<real>)
      requires IsLog(ln) && Valid() && k1 > 0.0 && 0.0 <= b < 1.0 && docID in documents
      requires ScoreSoFar(ln, terms, docID, |terms|, score)
      ensures if Undefined(terms) then score == None else score == Some(BM25(ln, terms, docID))
      ensures SoundFor(docID) && score.Some? ==> score.value >= 0.0
      ensures Indexed() ==>
                && score.Some? && score.value >= 0.0
                && (score.value > 0.0 <==> exists t :: t in terms && t in tokenize(documents[docID]))
    {
      hide BM25;
      hide SoundFor;
      hide Valid;
      hide Undefined;
      assert terms[..|terms|] == terms;
      if SoundFor(docID) && !Undefined(terms) {
        ScoreSign(ln, terms, docID);
      }
      if Indexed() {
        IndexedIsSound(docID);
      }
    }
  }

  /** Indexing a second time leaves the counts of the first: the term of the only document is counted
      three times, and the query for it scores below zero. */
  method ScoreAfterReindexing(ln: real -> real) returns (score: Option<real>)
    requires IsLog(ln)
    ensures score.Some? && score.value < 0.0
  {
    var tokenize := Whole;
    var first, second := map["a" := "x", "b" := "x"], map["c" := "x"];
    var scorer := new BM25Scorer(1.5, 0.75, tokenize);
    hide DocFreq;
    hide BM25Scorer.Valid;
    hide BM25Scorer.Indexed;
    hide BM25Scorer.SoundFor;
    hide BM25Scorer.BM25;
    hide BM25Scorer.Undefined;
    scorer.IndexDocuments(first);
    scorer.IndexDocuments(second);
    XCounts();
    scorer.OverCountedTerm(ln, "x", "c");
    score := scorer.Score(ln, "x", "c");
  }

  /** A tokenizer for the example: one word is one term. */
  function Whole(text: string): seq<string> { [text] }

  lemma XCounts()
    ensures DocFreq(map["a" := "x", "b" := "x"], Whole, "x") == 2
    ensures DocFreq(map["c" := "x"], Whole, "x") == 1
  {
    var first, second := map["a" := "x", "b" := "x"], map["c" := "x"];
    assert Containing(first, Whole, first.Keys, "x") == {"a", "b"};
    assert Containing(second, Whole, second.Keys, "x") == {"c"};
  }

  // ---------------------------------------------------------------- ranks

  ghost predicate HasRank(ranks: map<string, int>, r: int) {
    exists id :: id in ranks && ranks[id] == r
  }

  /** `ranks` numbers the ids 1..n, strictly higher scores first. */
  ghost predicate IsRanking(scores: map<string, real>, ranks: map<string, int>) {
    && ranks.Keys == scores.Keys
    && (forall id :: id in scores ==> 1 <= ranks[id] <= |scores|)
    && (forall r :: 1 <= r <= |scores| ==> HasRank(ranks, r))
    && (forall x, y :: x in scores && y in scores && x != y ==> ranks[x] != ranks[y])
    && (forall x, y :: x in scores && y in scores && scores[x] > scores[y] ==> ranks[x] < ranks[y])
  }

  datatype IdScore = IdScore(id: string, score: real)

  predicate HigherScore(a: IdScore, b: IdScore) { a.score > b.score }

  /** `items` lists the entries of `scores`, each once. */
  ghost predicate Enumerates(items: seq<IdScore>, scores: map<string, real>) {
    && |items| == |scores|
    && (forall i :: 0 <= i < |items| ==> items[i].id in scores && scores[items[i].id] == items[i].score)
    && (forall i, j :: 0 <= i < j < |items| ==> items[i].id != items[j].id)
    && (forall id :: id in scores ==> Occurs(items, id))
  }

  ghost predicate Occurs(items: seq<IdScore>, id: string) {
    exists i :: 0 <= i < |items| && items[i].id == id
  }

  method ListEntries(scores: map<string, real>) returns (items: seq<IdScore>)
    ensures Enumerates(items, scores)
  {
    items := [];
    var left := scores.Keys;
    while left != {}
      invariant left <= scores.Keys && |items| + |left| == |scores.Keys|
      invariant forall i :: 0 <= i < |items| ==> items[i].id in scores - left && scores[items[i].id] == items[i].score
      invariant forall i, j :: 0 <= i < j < |items| ==> items[i].id != items[j].id
      invariant forall id :: id in scores && id !in left ==> Occurs(items, id)
      decreases left
    {
      var id :| id in left;
      left := left - {id};
      ghost var before := items;
      items := items + [IdScore(id, scores[id])];
      assert items[|before|].id == id;
      forall x | Occurs(before, x) ensures Occurs(items, x) {
        var i :| 0 <= i < |before| && before[i].id == x;
        assert items[i].id == x;
      }
    }
  }

  /** Sorting an entry list keeps it one. */
  lemma PermutedEntries(items: seq<IdScore>, sorted: seq<IdScore>, scores: map<string, real>)
    requires Enumerates(items, scores) && multiset(sorted) == multiset(items)
    ensures Enumerates(sorted, scores)
  {
    SameSize(items, sorted);
    forall i | 0 <= i < |sorted| ensures sorted[i] in items {
      assert sorted[i] in multiset(items);
    }
    forall id | id in scores ensures Occurs(sorted, id) {
      assert Occurs(items, id);
      var i :| 0 <= i < |items| && items[i].id == id;
      assert items[i] in multiset(sorted);
      var j :| 0 <= j < |sorted| && sorted[j] == items[i];
    }
    forall i, j | 0 <= i < j < |sorted| ensures sorted[i].id != sorted[j].id {
      if sorted[i].id == sorted[j].id {
        TwiceInMultiset(sorted, i, j);
        OnceInMultiset(items, scores, sorted[i]);
      }
    }
  }

  lemma TwiceInMultiset(s: seq<IdScore>, i: nat, j: nat)
    requires i < j < |s| && s[i] == s[j]
    ensures multiset(s)[s[i]] >= 2
  {
    assert s == s[..i] + [s[i]] + s[i + 1..j] + [s[j]] + s[j + 1..];
  }

  lemma OnceInMultiset(items: seq<IdScore>, scores: map<string, real>, x: IdScore)
    requires Enumerates(items, scores)
    ensures multiset(items)[x] <= 1
  {
    if x in multiset(items) {
      var i :| 0 <= i < |items| && items[i] == x;
      assert items == items[..i] + [x] + items[i + 1..];
      assert x !in items[..i] && x !in items[i + 1..];
    }
  }

  method RankScores(scores: map<string, real>) returns (ranks: map<string, int>)
    ensures IsRanking(scores, ranks)
  {
    hide IsRanking;
    var items := ListEntries(scores);
    var sorted := SortByScore(items);
    PermutedEntries(items, sorted, scores);
    ranks := NumberItems(sorted);
    RanksByPosition(scores, sorted, ranks);
    var maxRank := |scores| + 1;
    var left := scores.Keys;
    ghost var complete := ranks;
    assert scores.Keys == complete.Keys by { EveryScoreIsRanked(scores, sorted, ranks); }
    while left != {}
      invariant left <= scores.Keys && ranks == complete
      decreases left
    {
      var id :| id in left;
      left := left - {id};
      if id !in ranks {
        ranks := ranks[id := maxRank];
      }
    }
  }

  method SortByScore(items: seq<IdScore>) returns (sorted: seq<IdScore>)
    ensures multiset(sorted) == multiset(items) && SortedBy(sorted, HigherScore)
  {
    sorted := SortSlice(items, HigherScore);
  }

  /** `ranks` numbers the ids of `sorted` by position, from 1. */
  ghost predicate Numbers(ranks: map<string, int>, sorted: seq<IdScore>) {
    && (forall j :: 0 <= j < |sorted| ==> sorted[j].id in ranks && ranks[sorted[j].id] == j + 1)
    && (forall id :: id in ranks ==> Occurs(sorted, id))
  }

  method NumberItems(sorted: seq<IdScore>) returns (ranks: map<string, int>)
    requires forall i, j :: 0 <= i < j < |sorted| ==> sorted[i].id != sorted[j].id
    ensures Numbers(ranks, sorted)
  {
    ranks := map[];
    for i := 0 to |sorted|
      invariant forall j :: 0 <= j < i ==> sorted[j].id in ranks && ranks[sorted[j].id] == j + 1
      invariant forall id :: id in ranks ==> Occurs(sorted, id)
    {
      ranks := ranks[sorted[i].id := i + 1];
    }
  }

  lemma RankIsPosition(scores: map<string, real>, sorted: seq<IdScore>, ranks: map<string, int>, id: string)
    requires Enumerates(sorted, scores) && Numbers(ranks, sorted) && (id in scores || id in ranks)
    ensures id in scores && id in ranks && 1 <= ranks[id] <= |sorted| == |scores|
    ensures sorted[ranks[id] - 1] == IdScore(id, scores[id])
  {
    assert Occurs(sorted, id);
    var j :| 0 <= j < |sorted| && sorted[j].id == id;
  }

  lemma PositionIsRank(scores: map<string, real>, sorted: seq<IdScore>, ranks: map<string, int>, r: int)
    requires Enumerates(sorted, scores) && Numbers(ranks, sorted) && 1 <= r <= |scores|
    ensures HasRank(ranks, r)
  {
    assert ranks[sorted[r - 1].id] == r;
  }

  lemma EveryScoreIsRanked(scores: map<string, real>, sorted: seq<IdScore>, ranks: map<string, int>)
    requires Enumerates(sorted, scores) && Numbers(ranks, sorted)
    ensures ranks.Keys == scores.Keys
  {
    hide *;
    forall id ensures id in ranks <==> id in scores {
      if id in ranks || id in scores { RankIsPosition(scores, sorted, ranks, id); }
    }
  }

  lemma HigherGoesFirst(sorted: seq<IdScore>, i: int, j: int)
    requires SortedBy(sorted, HigherScore) && 0 <= i < |sorted| && 0 <= j < |sorted|
    requires sorted[i].score > sorted[j].score
    ensures i < j
  {
    assert HigherScore(sorted[i], sorted[j]);
  }

  lemma TwoPositions(scores: map<string, real>, sorted: seq<IdScore>, ranks: map<string, int>, x: string, y: string)
    requires Enumerates(sorted, scores) && SortedBy(sorted, HigherScore) && Numbers(ranks, sorted)
    requires x in scores && y in scores && x != y
    ensures x in ranks && y in ranks && ranks[x] != ranks[y] && (scores[x] > scores[y] ==> ranks[x] < ranks[y])
  {
    hide Enumerates;
    hide Numbers;
    RankIsPosition(scores, sorted, ranks, x);
    RankIsPosition(scores, sorted, ranks, y);
    if scores[x] > scores[y] {
      HigherGoesFirst(sorted, ranks[x] - 1, ranks[y] - 1);
    }
  }

  lemma RanksByPosition(scores: map<string, real>, sorted: seq<IdScore>, ranks: map<string, int>)
    requires Enumerates(sorted, scores) && SortedBy(sorted, HigherScore) && Numbers(ranks, sorted)
    ensures IsRanking(scores, ranks)
  {
    hide Enumerates;
    hide Numbers;
    hide HasRank;
    hide SortedBy;
    EveryScoreIsRanked(scores, sorted, ranks);
    forall id | id in scores ensures 1 <= ranks[id] <= |scores| {
      RankIsPosition(scores, sorted, ranks, id);
    }
    forall r | 1 <= r <= |scores| ensures HasRank(ranks, r) {
      PositionIsRank(scores, sorted, ranks, r);
    }
    forall x, y | x in scores && y in scores && x != y
      ensures ranks[x] != ranks[y] && (scores[x] > scores[y] ==> ranks[x] < ranks[y])
    {
      TwoPositions(scores, sorted, ranks, x, y);
    }
  }

  // ---------------------------------------------------------------- reciprocal rank fusion

  /** A floating-point result, exact where it is finite. */
  datatype Float = Finite(value: real) | PosInf | NegInf | NaN

  function Over(x: real, y: real): Float {
    if y != 0.0 then Finite(x / y) else if x > 0.0 then PosInf else if x < 0.0 then NegInf else NaN
  }

  function Plus(x: Float, y: Float): Float {
    if x.Finite? && y.Finite? then Finite(x.value + y.value)
    else if x.Finite? then y
    else if y.Finite? then x
    else if x == y then x
    else NaN
  }

  predicate Greater(x: Float, y: Float) {
    match x
    case Finite(v) => (y.Finite? && v > y.value) || y == NegInf
    case PosInf => y.Finite? || y == NegInf
    case NegInf => false
    case NaN => false
  }

  /** An id that is missing from a list gets rank 0. */
  function RankOf(ranks: map<string, int>, id: string): int {
    if id in ranks then ranks[id] else 0
  }

  /** What a list contributes to an id: its weight over k plus the rank. */
  function Contribution(weight: real, k: int, ranks: map<string, int>, id: string): Float {
    Over(weight, (k + RankOf(ranks, id)) as real)
  }

  lemma SmallerRankGivesMore(weight: real, x: real, y: real)
    requires weight >= 0.0 && 0.0 < x < y
    ensures weight / x >= weight / y && (weight > 0.0 ==> weight / x > weight / y)
  {
    var p, q := weight / x, weight / y;
    assert p * x == weight && q * y == weight;
    assert q >= 0.0 by { assert q < 0.0 ==> q * y < 0.0; }
    assert q * x <= q * y;
    assert p < q ==> p * x < q * x;
    assert weight > 0.0 ==> q > 0.0;
    assert q > 0.0 ==> q * x < q * y;
    assert p <= q ==> p * x <= q * x;
  }

  lemma NegatedDivisor(weight: real, x: real)
    requires x != 0.0
    ensures weight / -x == -(weight / x)
  {
    var q := weight / x;
    assert q * x == weight && -q * -x == weight;
  }

  /** `fused` holds, for the ids of either list, the two lists' contributions under some rankings. */
  ghost predicate IsFusion(lexical: map<string, real>, semantic: map<string, real>, lexicalWeight: real, semanticWeight: real,
                           k: int, fused: map<string, Float>)
  {
    exists lr, sr :: IsFusionOf(lexical, semantic, lexicalWeight, semanticWeight, k, lr, sr, fused)
  }

  ghost predicate IsFusionOf(lexical: map<string, real>, semantic: map<string, real>, lexicalWeight: real, semanticWeight: real,
                             k: int, lr: map<string, int>, sr: map<string, int>, fused: map<string, Float>)
  {
    && IsRanking(lexical, lr) && IsRanking(semantic, sr)
    && fused.Keys == lexical.Keys + semantic.Keys
    && forall id :: id in fused ==>
         fused[id] == Plus(Contribution(lexicalWeight, k, lr, id), Contribution(semanticWeight, k, sr, id))
  }

  /** The constant meets no rank of a list: adding it to one never gives zero. */
  predicate Clear(k: int, scores: map<string, real>) { !(1 <= -k <= |scores|) }

  /** No id of `ids` meets the constant exactly when no rank does and, for zero, no id is missing. */
  lemma ClearExactly(k: int, scores: map<string, real>, ranks: map<string, int>, ids: set<string>)
    requires IsRanking(scores, ranks) && scores.Keys <= ids
    ensures (forall id :: id in ids ==> k + RankOf(ranks, id) != 0) <==> Clear(k, scores) && (k == 0 ==> ids == scores.Keys)
  {
    if !Clear(k, scores) {
      assert HasRank(ranks, -k);
      var id :| id in ranks && ranks[id] == -k;
      assert k + RankOf(ranks, id) == 0 && id in ids;
    }
    hide HasRank;
    if k == 0 && ids != scores.Keys {
      var id :| id in ids && id !in scores.Keys;
      assert k + RankOf(ranks, id) == 0;
    }
  }

  /** Every fused score is finite exactly when the constant meets no rank of either list and, if it is
      zero, no id is missing from either. A positive constant is always enough. */
  lemma FiniteExactly(lexical: map<string, real>, semantic: map<string, real>, lexicalWeight: real, semanticWeight: real,
                      k: int, fused: map<string, Float>)
    requires IsFusion(lexical, semantic, lexicalWeight, semanticWeight, k, fused)
    ensures (forall id :: id in fused ==> fused[id].Finite?) <==>
            Clear(k, lexical) && Clear(k, semantic) && (k == 0 ==> lexical.Keys == semantic.Keys)
  {
    hide IsRanking;
    hide Clear;
    hide Plus;
    hide Contribution;
    hide RankOf;
    var lr, sr :| IsFusionOf(lexical, semantic, lexicalWeight, semanticWeight, k, lr, sr, fused);
    var ids := fused.Keys;
    ClearExactly(k, lexical, lr, ids);
    ClearExactly(k, semantic, sr, ids);
    forall id | id in ids ensures fused[id].Finite? <==> k + RankOf(lr, id) != 0 && k + RankOf(sr, id) != 0 {
      FiniteSum(lexicalWeight, semanticWeight, k, lr, sr, id);
    }
    assert (ids == lexical.Keys && ids == semantic.Keys) <==> lexical.Keys == semantic.Keys;
  }

  lemma RankedKeys(scores: map<string, real>, ranks: map<string, int>)
    requires IsRanking(scores, ranks)
    ensures ranks.Keys == scores.Keys && forall id :: id in ranks ==> 1 <= ranks[id] <= |scores|
  {
  }

  lemma FiniteSum(lexicalWeight: real, semanticWeight: real, k: int, lr: map<string, int>, sr: map<string, int>, id: string)
    ensures Plus(Contribution(lexicalWeight, k, lr, id), Contribution(semanticWeight, k, sr, id)).Finite? <==>
            k + RankOf(lr, id) != 0 && k + RankOf(sr, id) != 0
  {
  }

  /** The constant leaves all sums with a rank on one side of zero. */
  predicate OneSided(k: int, scores: map<string, real>) { k >= 0 || k < -|scores| }

  lemma BetterRankGivesMore(weight: real, k: int, scores: map<string, real>, ranks: map<string, int>, x: string, y: string)
    requires OneSided(k, scores) && weight >= 0.0 && IsRanking(scores, ranks)
    requires x in scores && y in scores && scores[x] > scores[y]
    ensures var p, q := Contribution(weight, k, ranks, x), Contribution(weight, k, ranks, y);
            p.Finite? && q.Finite? && p.value >= q.value && (weight > 0.0 ==> p.value > q.value)
  {
    assert 1 <= ranks[x] < ranks[y] <= |scores|;
    var p, q := (k + ranks[x]) as real, (k + ranks[y]) as real;
    if k >= 0 {
      SmallerRankGivesMore(weight, p, q);
    } else {
      SmallerRankGivesMore(weight, -q, -p);
      NegatedDivisor(weight, p);
      NegatedDivisor(weight, q);
    }
  }

  /** One step past a constant of -1 the first rank gives infinity and all others finite amounts. */
  lemma FirstRankGivesInfinity(weight: real, scores: map<string, real>, ranks: map<string, int>, x: string, y: string)
    requires weight > 0.0 && IsRanking(scores, ranks)
    requires x in scores && y in scores && scores[x] > scores[y]
    ensures var p, q := Contribution(weight, -1, ranks, x), Contribution(weight, -1, ranks, y);
            q.Finite? && (p == PosInf || (p.Finite? && p.value > q.value))
  {
    assert 1 <= ranks[x] < ranks[y] <= |scores|;
    hide IsRanking;
    if ranks[x] > 1 {
      SmallerRankGivesMore(weight, (ranks[x] - 1) as real, (ranks[y] - 1) as real);
    }
  }

  /** Do the constant and the weights let a document show that it is better on both lists? */
  predicate Rewards(k: int, lexicalWeight: real, semanticWeight: real, lexical: map<string, real>, semantic: map<string, real>) {
    || (&& OneSided(k, lexical) && OneSided(k, semantic)
        && lexicalWeight >= 0.0 && semanticWeight >= 0.0 && lexicalWeight + semanticWeight > 0.0)
    || (k == -1 && lexicalWeight > 0.0 && semanticWeight > 0.0)
  }

  /** Does `x` score strictly higher than `y` on both lists? */
  ghost predicate Dominates(lexical: map<string, real>, semantic: map<string, real>, x: string, y: string) {
    && x in lexical && y in lexical && lexical[x] > lexical[y]
    && x in semantic && y in semantic && semantic[x] > semantic[y]
  }

  ghost predicate Above(fused: map<string, Float>, x: string, y: string) {
    x in fused && y in fused && Greater(fused[x], fused[y])
  }

  /** A document that beats another on both lists beats it in the fusion, under every tie-breaking. */
  lemma DominanceWins(lexical: map<string, real>, semantic: map<string, real>, lexicalWeight: real, semanticWeight: real,
                      k: int, fused: map<string, Float>, x: string, y: string)
    requires IsFusion(lexical, semantic, lexicalWeight, semanticWeight, k, fused)
    requires Rewards(k, lexicalWeight, semanticWeight, lexical, semantic) && Dominates(lexical, semantic, x, y)
    ensures Above(fused, x, y)
    ensures OneSided(k, lexical) && OneSided(k, semantic) ==> fused[x].Finite? && fused[y].Finite?
  {
    hide Contribution;
    hide IsRanking;
    hide OneSided;
    var lr, sr :| IsFusionOf(lexical, semantic, lexicalWeight, semanticWeight, k, lr, sr, fused);
    if OneSided(k, lexical) && OneSided(k, semantic) {
      BetterRankGivesMore(lexicalWeight, k, lexical, lr, x, y);
      BetterRankGivesMore(semanticWeight, k, semantic, sr, x, y);
    } else {
      FirstRankGivesInfinity(lexicalWeight, lexical, lr, x, y);
      FirstRankGivesInfinity(semanticWeight, semantic, sr, x, y);
    }
  }

  /** Does being better on both lists show in every fusion of two lists of `n` documents? */
  ghost predicate ShowsDominance(n: nat, k: int, lexicalWeight: real, semanticWeight: real) {
    forall lexical, semantic, fused, x, y ::
      |lexical| == n && |semantic| == n && IsFusion(lexical, semantic, lexicalWeight, semanticWeight, k, fused) &&
      Dominates(lexical, semantic, x, y)
      ==> Above(fused, x, y)
  }

  // Lists for the other constants: n documents with scores -1 to -n.

  function Letters(i: nat): (u: string)
    ensures |u| == i
  {
    seq(i, _ => 'x')
  }

  ghost function Documents(n: nat): set<string> {
    set i | 1 <= i <= n :: Letters(i)
  }

  lemma {:induction false} DocumentsCount(n: nat)
    ensures |Documents(n)| == n
  {
    if n > 0 {
      DocumentsCount(n - 1);
      forall u ensures u in Documents(n) <==> u in Documents(n - 1) || u == Letters(n) {}
      assert Documents(n) == Documents(n - 1) + {Letters(n)};
      assert forall i :: 1 <= i <= n - 1 ==> |Letters(i)| < n;
      assert Letters(n) !in Documents(n - 1);
    }
  }

  lemma DocumentIs(n: nat, u: string)
    requires u in Documents(n)
    ensures 1 <= |u| <= n && u == Letters(|u|)
  {
    var i :| 1 <= i <= n && Letters(i) == u;
  }

  ghost function Falling(n: nat): map<string, real> {
    map u | u in Documents(n) :: -(|u| as real)
  }

  ghost function ByLength(n: nat): map<string, int> {
    map u | u in Documents(n) :: |u|
  }

  lemma FallingIsRanked(n: nat)
    ensures |Falling(n)| == n && IsRanking(Falling(n), ByLength(n))
  {
    hide Documents;
    var scores, ranks := Falling(n), ByLength(n);
    DocumentsCount(n);
    assert scores.Keys == Documents(n) && |scores| == |scores.Keys|;
    forall u | u in Documents(n) ensures 1 <= |u| <= n && u == Letters(|u|) { DocumentIs(n, u); }
    forall r | 1 <= r <= n ensures HasRank(ranks, r) {
      LettersAreDocument(n, r);
      assert ranks[Letters(r)] == r;
    }
  }

  lemma LettersAreDocument(n: nat, i: nat)
    requires 1 <= i <= n
    ensures Letters(i) in Documents(n)
  {
  }

  lemma SignedQuotient(weight: real, y: real)
    requires weight > 0.0 && y != 0.0
    ensures weight / y > 0.0 <==> y > 0.0
    ensures weight / y < 0.0 <==> y < 0.0
  {
    var q := weight / y;
    assert q * y == weight;
    assert q > 0.0 && y < 0.0 ==> q * y < 0.0;
    assert q < 0.0 && y > 0.0 ==> q * y < 0.0;
  }

  lemma FirstContribution(weight: real, k: int, n: nat)
    requires weight > 0.0 && 2 <= -k <= n
    ensures var p := Contribution(weight, k, ByLength(n), Letters(1)); p.Finite? && p.value < 0.0
  {
    LettersAreDocument(n, 1);
    hide Documents;
    SignedQuotient(weight, (k + 1) as real);
  }

  lemma LastContribution(weight: real, k: int, n: nat)
    requires weight > 0.0 && 2 <= -k <= n
    ensures var p := Contribution(weight, k, ByLength(n), Letters(n)); p == PosInf || (p.Finite? && p.value > 0.0)
  {
    LettersAreDocument(n, n);
    hide Documents;
    if k + n > 0 {
      SignedQuotient(weight, (k + n) as real);
    }
  }

  lemma FallingDominates(n: nat)
    requires n >= 2
    ensures Dominates(Falling(n), Falling(n), Letters(1), Letters(n))
  {
    LettersAreDocument(n, 1);
    LettersAreDocument(n, n);
    hide Documents;
  }

  /** When the constant lies between -n and -2, the last of n documents comes out above the first. */
  lemma LastBeatsFirst(n: nat, k: int, lexicalWeight: real, semanticWeight: real) returns (fused: map<string, Float>)
    requires lexicalWeight > 0.0 && semanticWeight > 0.0 && 2 <= -k <= n
    ensures |Falling(n)| == n && IsFusion(Falling(n), Falling(n), lexicalWeight, semanticWeight, k, fused)
    ensures Dominates(Falling(n), Falling(n), Letters(1), Letters(n)) && Above(fused, Letters(n), Letters(1))
  {
    hide Documents;
    hide Contribution;
    hide IsRanking;
    hide Dominates;
    var scores, ranks := Falling(n), ByLength(n);
    fused := map u | u in Documents(n) ::
      Plus(Contribution(lexicalWeight, k, ranks, u), Contribution(semanticWeight, k, ranks, u));
    FallingIsRanked(n);
    FallingDominates(n);
    assert IsFusionOf(scores, scores, lexicalWeight, semanticWeight, k, ranks, ranks, fused);
    LettersAreDocument(n, 1);
    LettersAreDocument(n, n);
    hide Letters;
    hide IsFusion;
    hide IsFusionOf;
    FirstContribution(lexicalWeight, k, n);
    FirstContribution(semanticWeight, k, n);
    LastContribution(lexicalWeight, k, n);
    LastContribution(semanticWeight, k, n);
    hide ByLength;
  }

  /** With positive weights, exactly which constants let being better on both lists show, for every two
      lists of n documents. */
  lemma DominanceExactly(n: nat, k: int, lexicalWeight: real, semanticWeight: real)
    requires lexicalWeight > 0.0 && semanticWeight > 0.0
    ensures ShowsDominance(n, k, lexicalWeight, semanticWeight) <==> k >= -1 || -k > n
  {
    hide IsFusion;
    hide Dominates;
    hide Above;
    if k >= -1 || -k > n {
      forall lexical, semantic, fused, x, y |
        && |lexical| == n && |semantic| == n && IsFusion(lexical, semantic, lexicalWeight, semanticWeight, k, fused)
        && Dominates(lexical, semantic, x, y)
        ensures Above(fused, x, y)
      {
        DominanceWins(lexical, semantic, lexicalWeight, semanticWeight, k, fused, x, y);
      }
    } else {
      var fused := LastBeatsFirst(n, k, lexicalWeight, semanticWeight);
      NotBoth(fused, Letters(n), Letters(1));
    }
  }

  lemma NotBoth(fused: map<string, Float>, x: string, y: string)
    requires Above(fused, x, y)
    ensures !Above(fused, y, x)
  {
  }

  /** The rank-0 default favours absence: a list gives an id that it does not contain strictly more than
      every id that it does contain, exactly when the list's weight is positive. */
  lemma AbsenceOutranks(weight: real, k: nat, scores: map<string, real>, ranks: map<string, int>, present: string, absent: string)
    requires weight >= 0.0 && IsRanking(scores, ranks)
    requires present in scores && absent !in scores
    ensures Greater(Contribution(weight, k, ranks, absent), Contribution(weight, k, ranks, present)) <==> weight > 0.0
  {
    hide IsRanking;
    RankedKeys(scores, ranks);
    var p, q := k as real, (k + ranks[present]) as real;
    assert Contribution(weight, k, ranks, absent) == Over(weight, p) && Contribution(weight, k, ranks, present) == Over(weight, q);
    hide Contribution;
    if k > 0 {
      SmallerRankGivesMore(weight, p, q);
    } else {
      assert Over(weight, q) == Finite(weight / q);
      assert Over(weight, p) == if weight > 0.0 then PosInf else NaN;
    }
  }

  /** So a document without text can come out above one that beats it on the only list they share. */
  lemma AbsenceCanWin(fused: map<string, Float>)
    requires IsFusion(map["a" := 2.0, "b" := 0.0], map["a" := 1.0], 0.3, 0.7, 60, fused)
    ensures Greater(fused["b"], fused["a"])
  {
    hide Contribution;
    hide IsRanking;
    var lexical, semantic := map["a" := 2.0, "b" := 0.0], map["a" := 1.0];
    var lr, sr :| IsFusionOf(lexical, semantic, 0.3, 0.7, 60, lr, sr, fused);
    TwoRanks(lexical, lr);
    OneRank(semantic, sr);
    Contributes(0.3, 60, lr, "a", 61.0);
    Contributes(0.3, 60, lr, "b", 62.0);
    Contributes(0.7, 60, sr, "a", 61.0);
    Contributes(0.7, 60, sr, "b", 60.0);
    assert "a" in fused && "b" in fused;
  }

  lemma TwoRanks(scores: map<string, real>, ranks: map<string, int>)
    requires scores == map["a" := 2.0, "b" := 0.0] && IsRanking(scores, ranks)
    ensures ranks.Keys == {"a", "b"} && ranks["a"] == 1 && ranks["b"] == 2
  {
    assert "a" in scores && "b" in scores && scores["a"] > scores["b"];
    assert |scores| == 2;
  }

  lemma OneRank(scores: map<string, real>, ranks: map<string, int>)
    requires scores == map["a" := 1.0] && IsRanking(scores, ranks)
    ensures ranks.Keys == {"a"} && ranks["a"] == 1
  {
    assert "a" in scores && |scores| == 1;
  }

  lemma Contributes(weight: real, k: int, ranks: map<string, int>, id: string, divisor: real)
    requires divisor == (k + RankOf(ranks, id)) as real && divisor > 0.0
    ensures Contribution(weight, k, ranks, id) == Finite(weight / divisor)
  {
  }

  method FuseScore(lexicalWeight: real, semanticWeight: real, k: int, lr: map<string, int>, sr: map<string, int>, id: string)
    returns (score: Float)
    ensures score == Plus(Contribution(lexicalWeight, k, lr, id), Contribution(semanticWeight, k, sr, id))
  {
    var lexRank, semRank := Freq(lr, id), Freq(sr, id);
    score := Plus(Over(lexicalWeight, k as real + lexRank as real), Over(semanticWeight, k as real + semRank as real));
  }

  method FuseAll(ids: set<string>, lexicalWeight: real, semanticWeight: real, k: int, lr: map<string, int>, sr: map<string, int>)
    returns (combined: map<string, Float>)
    ensures combined.Keys == ids
    ensures forall id :: id in ids ==>
              combined[id] == Plus(Contribution(lexicalWeight, k, lr, id), Contribution(semanticWeight, k, sr, id))
  {
    hide Contribution;
    hide Plus;
    combined := map[];
    var left := ids;
    while left != {}
      invariant left <= ids && combined.Keys == ids - left
      invariant forall id :: id in combined ==>
        combined[id] == Plus(Contribution(lexicalWeight, k, lr, id), Contribution(semanticWeight, k, sr, id))
      decreases left
    {
      var id :| id in left;
      left := left - {id};
      var score := FuseScore(lexicalWeight, semanticWeight, k, lr, sr, id);
      combined := combined[id := score];
    }
  }

  method ReciprocalRankFusion(lexical: map<string, real>, semantic: map<string, real>, lexicalWeight: real,
                              semanticWeight: real, k: int)
    returns (combined: map<string, Float>)
    ensures IsFusion(lexical, semantic, lexicalWeight, semanticWeight, k, combined)
  {
    hide Contribution;
    hide HasRank;
    var lexicalRanks := RankScores(lexical);
    var semanticRanks := RankScores(semantic);
    combined := FuseAll(lexical.Keys + semantic.Keys, lexicalWeight, semanticWeight, k, lexicalRanks, semanticRanks);
    assert IsFusionOf(lexical, semantic, lexicalWeight, semanticWeight, k, lexicalRanks, semanticRanks, combined);
  }

  // ---------------------------------------------------------------- the ranking half of Retrieve

  datatype RetrievalConfig = RetrievalConfig(limit: nat, lexicalWeight: real, semanticWeight: real, rrfConstant: int)

  datatype ScoredDoc = ScoredDoc(id: string, score: Float)

  predicate HigherFused(a: ScoredDoc, b: ScoredDoc) { Greater(a.score, b.score) }

  /** With such a configuration no fused score is NaN, so that scores can be ordered: no zero is divided
      by zero, and infinities have one sign. */
  predicate Orderable(config: RetrievalConfig) {
    config.rrfConstant > 0 || (config.lexicalWeight > 0.0 && config.semanticWeight > 0.0)
  }

  lemma NoNaN(lexical: map<string, real>, semantic: map<string, real>, config: RetrievalConfig, fused: map<string, Float>)
    requires Orderable(config)
    requires IsFusion(lexical, semantic, config.lexicalWeight, config.semanticWeight, config.rrfConstant, fused)
    ensures fused.Keys == lexical.Keys + semantic.Keys
    ensures forall id :: id in fused ==> fused[id] != NaN
  {
    hide IsRanking;
    var lr, sr :| IsFusionOf(lexical, semantic, config.lexicalWeight, config.semanticWeight, config.rrfConstant, lr, sr, fused);
    RankedKeys(lexical, lr);
    RankedKeys(semantic, sr);
  }

  /** Configurations for which being better on both lists must show. */
  predicate Rewarding(config: RetrievalConfig, lexical: map<string, real>, semantic: map<string, real>) {
    Rewards(config.rrfConstant, config.lexicalWeight, config.semanticWeight, lexical, semantic)
  }

  /** The fused score of a document, under the two rankings: each list's weight over the constant plus the
      rank, which is 0 for an id that the list does not contain. */
  ghost predicate IsScoreOf(config: RetrievalConfig, lr: map<string, int>, sr: map<string, int>, id: string, score: Float) {
    var p := config.rrfConstant + if id in lr then lr[id] else 0;
    var q := config.rrfConstant + if id in sr then sr[id] else 0;
    && (p != 0 && q != 0 ==> score == Finite(config.lexicalWeight / p as real + config.semanticWeight / q as real))
    && score == Plus(Over(config.lexicalWeight, p as real), Over(config.semanticWeight, q as real))
  }

  lemma FusionRankings(lexical: map<string, real>, semantic: map<string, real>, config: RetrievalConfig, fused: map<string, Float>)
    returns (lr: map<string, int>, sr: map<string, int>)
    requires IsFusion(lexical, semantic, config.lexicalWeight, config.semanticWeight, config.rrfConstant, fused)
    ensures IsRanking(lexical, lr) && IsRanking(semantic, sr)
    ensures forall id :: id in fused ==> IsScoreOf(config, lr, sr, id, fused[id])
  {
    hide IsRanking;
    lr, sr :| IsFusionOf(lexical, semantic, config.lexicalWeight, config.semanticWeight, config.rrfConstant, lr, sr, fused);
  }

  lemma ExchangedShares(w: real, v: real, x: real, y: real)
    requires w > v && 0.0 < x < y
    ensures w / x + v / y > w / y + v / x
  {
    var p, q := 1.0 / x, 1.0 / y;
    assert p * x == 1.0 && q * y == 1.0;
    LessReciprocal(p, q, x, y);
    PositiveTimes(w - v, p - q);
    assert (w - v) * (p - q) == w * p + v * q - w * q - v * p;
    AsReciprocal(w, x);
    AsReciprocal(w, y);
    AsReciprocal(v, x);
    AsReciprocal(v, y);
  }

  lemma LessReciprocal(p: real, q: real, x: real, y: real)
    requires 0.0 < x < y && p * x == 1.0 && q * y == 1.0
    ensures q < p
  {
    LargerDivisorGivesLess(p, q, x, y);
  }

  lemma AsReciprocal(w: real, x: real)
    requires x > 0.0
    ensures w / x == w * (1.0 / x)
  {
  }

  /** Do `x` and `y` stand at the same two ranks on the two lists, `x` first on the lexical one? */
  predicate Opposed(lr: map<string, int>, sr: map<string, int>, x: string, y: string) {
    x in lr && y in lr && x in sr && y in sr && lr[x] == sr[y] && lr[y] == sr[x] && 1 <= lr[x] < lr[y]
  }

  /** The greater weight decides between two documents that the lists put in opposite order. */
  lemma WeightDecides(config: RetrievalConfig, lr: map<string, int>, sr: map<string, int>, x: string, y: string,
                      s: Float, t: Float)
    requires config.rrfConstant >= 0 && Opposed(lr, sr, x, y)
    requires IsScoreOf(config, lr, sr, x, s) && IsScoreOf(config, lr, sr, y, t)
    ensures s.Finite? && t.Finite?
    ensures config.lexicalWeight > config.semanticWeight ==> Greater(s, t)
    ensures config.semanticWeight > config.lexicalWeight ==> Greater(t, s)
  {
    var k, v, w := config.rrfConstant, config.lexicalWeight, config.semanticWeight;
    var a, b := (k + lr[x]) as real, (k + lr[y]) as real;
    assert s == Finite(v / a + w / b) && t == Finite(v / b + w / a);
    if v > w {
      ExchangedShares(v, w, a, b);
    }
    if w > v {
      ExchangedShares(w, v, a, b);
    }
  }

  lemma WeightsShow(config: RetrievalConfig, lr: map<string, int>, sr: map<string, int>, sorted: seq<ScoredDoc>)
    requires Descends(sorted) && forall d :: d in sorted ==> IsScoreOf(config, lr, sr, d.id, d.score)
    ensures WeightsRespected(config, lr, sr, sorted)
  {
    hide IsScoreOf;
    hide Greater;
    forall i, j | && config.rrfConstant >= 0 && 0 <= i < |sorted| && 0 <= j < |sorted|
                  && Opposed(lr, sr, sorted[i].id, sorted[j].id)
      ensures config.lexicalWeight > config.semanticWeight ==> i < j
      ensures config.semanticWeight > config.lexicalWeight ==> j < i
    {
      var x, y := sorted[i], sorted[j];
      assert x in sorted && y in sorted;
      WeightDecides(config, lr, sr, x.id, y.id, x.score, y.score);
      if config.lexicalWeight > config.semanticWeight {
        GreaterIsAsymmetric(x.score, y.score);
      }
      if config.semanticWeight > config.lexicalWeight {
        GreaterIsAsymmetric(y.score, x.score);
      }
    }
  }

  /** With a constant of at least zero, of two documents at opposite places the one that stands first on
      the list with the greater weight comes first. */
  ghost predicate WeightsRespected(config: RetrievalConfig, lr: map<string, int>, sr: map<string, int>, items: seq<ScoredDoc>) {
    forall i, j :: && config.rrfConstant >= 0 && 0 <= i < |items| && 0 <= j < |items|
                   && Opposed(lr, sr, items[i].id, items[j].id) ==>
      (config.lexicalWeight > config.semanticWeight ==> i < j) && (config.semanticWeight > config.lexicalWeight ==> j < i)
  }

  /** The allowed documents `ids`, fused, sorted and cut to the limit. Unless scores may be NaN, what is
      cut off never scores higher than what is kept, and a document that beats another on both lists
      comes before it. */
  method RankDocuments(ids: seq<string>, lexical: map<string, real>, semantic: map<string, real>, config: RetrievalConfig)
    returns (results: seq<ScoredDoc>, ghost cut: seq<ScoredDoc>, ghost lr: map<string, int>, ghost sr: map<string, int>)
    requires (forall id :: id in ids <==> id in lexical) && semantic.Keys <= lexical.Keys
    ensures |results| == if config.limit < |ids| then config.limit else |ids|
    ensures multiset(Map(results + cut, IdOf)) == multiset(ids)
    ensures IsRanking(lexical, lr) && IsRanking(semantic, sr)
    ensures forall d :: d in results + cut ==> IsScoreOf(config, lr, sr, d.id, d.score)
    ensures Orderable(config) ==> Descends(results + cut) && WeightsRespected(config, lr, sr, results + cut)
    ensures Orderable(config) && Rewarding(config, lexical, semantic) ==> DominanceRespected(lexical, semantic, results + cut)
  {
    hide IsFusion;
    hide Greater;
    hide Rewarding;
    hide IsRanking;
    hide IsScoreOf;
    hide Descends;
    hide WeightsRespected;
    var combined := ReciprocalRankFusion(lexical, semantic, config.lexicalWeight, config.semanticWeight, config.rrfConstant);
    FusedKeys(lexical, semantic, config, combined);
    lr, sr := FusionRankings(lexical, semantic, config, combined);
    var scored := AttachScores(ids, combined);
    var sorted := SortFused(scored);
    var limit := config.limit;
    if limit > |sorted| {
      limit := |sorted|;
    }
    results := sorted[..limit];
    cut := sorted[limit..];
    assert results + cut == sorted;
    SortedScores(ids, combined, scored, sorted);
    if Orderable(config) {
      NoNaN(lexical, semantic, config, combined);
      ScoresDescend(sorted);
      WeightsShow(config, lr, sr, sorted);
      if Rewarding(config, lexical, semantic) {
        DominanceShows(lexical, semantic, config, combined, sorted);
      }
    }
  }

  ghost predicate Descends(items: seq<ScoredDoc>) {
    forall i, j :: 0 <= i < j < |items| ==> !Greater(items[j].score, items[i].score)
  }

  lemma FusedKeys(lexical: map<string, real>, semantic: map<string, real>, config: RetrievalConfig, fused: map<string, Float>)
    requires IsFusion(lexical, semantic, config.lexicalWeight, config.semanticWeight, config.rrfConstant, fused)
    ensures fused.Keys == lexical.Keys + semantic.Keys
  {
    var lr, sr :| IsFusionOf(lexical, semantic, config.lexicalWeight, config.semanticWeight, config.rrfConstant, lr, sr, fused);
  }

  function IdOf(r: ScoredDoc): string { r.id }

  method SortFused(scored: seq<ScoredDoc>) returns (sorted: seq<ScoredDoc>)
    ensures multiset(sorted) == multiset(scored)
    ensures (forall d :: d in scored ==> d.score != NaN) ==> SortedBy(sorted, HigherFused)
  {
    sorted := SortSlice(scored, HigherFused);
    if forall d :: d in scored ==> d.score != NaN {
      OrderedWithoutNaN(scored);
    }
  }

  lemma OrderedWithoutNaN(scored: seq<ScoredDoc>)
    requires forall d :: d in scored ==> d.score != NaN
    ensures IsStrictWeak(HigherFused, scored)
  {
  }

  method AttachScores(ids: seq<string>, combined: map<string, Float>) returns (scored: seq<ScoredDoc>)
    requires forall id :: id in ids ==> id in combined
    ensures |scored| == |ids| && forall j :: 0 <= j < |ids| ==> scored[j] == ScoredDoc(ids[j], combined[ids[j]])
  {
    scored := [];
    for i := 0 to |ids|
      invariant |scored| == i && forall j :: 0 <= j < i ==> scored[j] == ScoredDoc(ids[j], combined[ids[j]])
    {
      scored := scored + [ScoredDoc(ids[i], combined[ids[i]])];
    }
  }

  lemma SortedScores(ids: seq<string>, combined: map<string, Float>, scored: seq<ScoredDoc>, sorted: seq<ScoredDoc>)
    requires forall id :: id in ids ==> id in combined
    requires |scored| == |ids| && forall j :: 0 <= j < |ids| ==> scored[j] == ScoredDoc(ids[j], combined[ids[j]])
    requires multiset(sorted) == multiset(scored)
    ensures |sorted| == |ids| && multiset(Map(sorted, IdOf)) == multiset(ids)
    ensures forall d :: d in sorted ==> d.id in combined && d.score == combined[d.id]
    ensures forall d :: d in scored ==> d in sorted
  {
    SameSize(scored, sorted);
    MapPermutation(sorted, scored, IdOf);
    assert Map(scored, IdOf) == ids;
    hide Map;
    forall d | d in sorted ensures d.id in combined && d.score == combined[d.id] {
      assert d in multiset(scored);
      var j :| 0 <= j < |scored| && scored[j] == d;
    }
    forall d | d in scored ensures d in sorted {
      assert d in multiset(sorted);
    }
  }

  lemma ScoresDescend(sorted: seq<ScoredDoc>)
    requires SortedBy(sorted, HigherFused)
    ensures Descends(sorted)
  {
    hide Greater;
    forall i, j | 0 <= i < j < |sorted| ensures !Greater(sorted[j].score, sorted[i].score) {
      assert !HigherFused(sorted[j], sorted[i]);
    }
  }

  ghost predicate DominanceRespected(lexical: map<string, real>, semantic: map<string, real>, items: seq<ScoredDoc>) {
    forall i, j :: 0 <= i < |items| && 0 <= j < |items| && Dominates(lexical, semantic, items[i].id, items[j].id) ==> i < j
  }

  lemma DominanceShows(lexical: map<string, real>, semantic: map<string, real>, config: RetrievalConfig,
                       combined: map<string, Float>, sorted: seq<ScoredDoc>)
    requires Rewarding(config, lexical, semantic)
    requires IsFusion(lexical, semantic, config.lexicalWeight, config.semanticWeight, config.rrfConstant, combined)
    requires Descends(sorted) && forall d :: d in sorted ==> d.id in combined && d.score == combined[d.id]
    ensures DominanceRespected(lexical, semantic, sorted)
  {
    hide IsFusion;
    hide Rewards;
    hide Greater;
    forall i, j | 0 <= i < |sorted| && 0 <= j < |sorted| && Dominates(lexical, semantic, sorted[i].id, sorted[j].id)
      ensures i < j
    {
      DominanceWins(lexical, semantic, config.lexicalWeight, config.semanticWeight, config.rrfConstant, combined,
                    sorted[i].id, sorted[j].id);
      GreaterIsAsymmetric(sorted[i].score, sorted[j].score);
      assert sorted[i] in sorted && sorted[j] in sorted;
    }
  }

  lemma GreaterIsAsymmetric(x: Float, y: Float)
    requires Greater(x, y)
    ensures !Greater(y, x) && x != y
  {
  }
}
