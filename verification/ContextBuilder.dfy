/** Token-budgeted context assembly (context_builder.go): sections sorted by priority and cut to a
    budget by one of three strategies. The proportional factor is an exact rational here. */
module ContextBuilder {
  import opened Bytes
  import opened Lists
  import opened Options

  datatype Section = Section(name: ByteString, priority: int, content: ByteString, tokenCount: nat)

  /** What the builder makes: four bytes of content count as one token. */
  predicate IsLiteral(s: Section) { s.tokenCount == |s.content| / 4 }

  /** Content of `n` bytes. */
  function Filler(n: nat): ByteString { seq(n, _ => 0) }

  datatype Truncation = TailDrop | HeadDrop | Proportional | OtherStrategy

  ghost function Total(ss: seq<Section>): nat {
    if ss == [] then 0 else ss[0].tokenCount + Total(ss[1..])
  }

  lemma {:induction false} TotalConcat(ss: seq<Section>, ts: seq<Section>)
    ensures Total(ss + ts) == Total(ss) + Total(ts)
  {
    if ss == [] {
      assert ss + ts == ts;
    } else {
      assert (ss + ts)[1..] == ss[1..] + ts;
      TotalConcat(ss[1..], ts);
    }
  }

  lemma TotalNext(ss: seq<Section>, i: nat)
    requires i < |ss|
    ensures Total(ss[..i + 1]) == Total(ss[..i]) + ss[i].tokenCount
  {
    assert ss[..i + 1] == ss[..i] + [ss[i]];
    TotalConcat(ss[..i], [ss[i]]);
  }

  method SumTokens(ss: seq<Section>) returns (total: nat)
    ensures total == Total(ss)
  {
    total := 0;
    for i := 0 to |ss|
      invariant total == Total(ss[..i])
    {
      TotalNext(ss, i);
      total := total + ss[i].tokenCount;
    }
    assert ss[..|ss|] == ss;
  }

  // ---------------------------------------------------------------- dropping from the tail

  ghost function TailKept(ss: seq<Section>, budget: int): seq<Section> {
    if ss == [] || ss[0].tokenCount > budget then []
    else [ss[0]] + TailKept(ss[1..], budget - ss[0].tokenCount)
  }

  /** The longest prefix that fits is kept. */
  lemma {:induction false} TailKeptIsLongestPrefix(ss: seq<Section>, budget: int)
    ensures TailKept(ss, budget) <= ss
    ensures budget >= 0 ==> Total(TailKept(ss, budget)) <= budget
    ensures forall n :: 0 <= n <= |ss| && Total(ss[..n]) <= budget ==> n <= |TailKept(ss, budget)|
  {
    var kept := TailKept(ss, budget);
    if ss != [] {
      forall n | 0 < n <= |ss| ensures Total(ss[..n]) == ss[0].tokenCount + Total(ss[1..][..n - 1]) {
        assert ss[..n][1..] == ss[1..][..n - 1];
      }
      if ss[0].tokenCount <= budget {
        TailKeptIsLongestPrefix(ss[1..], budget - ss[0].tokenCount);
        assert kept[1..] == TailKept(ss[1..], budget - ss[0].tokenCount);
        assert ss == [ss[0]] + ss[1..];
      }
    }
  }

  method TailDropTruncation(ss: seq<Section>, budget: int) returns (result: seq<Section>)
    ensures result == TailKept(ss, budget)
  {
    result := [];
    var tokenCount := 0;
    var i := 0;
    while i < |ss|
      invariant 0 <= i <= |ss|
      invariant result + TailKept(ss[i..], budget - tokenCount) == TailKept(ss, budget)
    {
      if tokenCount + ss[i].tokenCount <= budget {
        assert ss[i..][1..] == ss[i + 1..];
        result := result + [ss[i]];
        tokenCount := tokenCount + ss[i].tokenCount;
      } else {
        break;
      }
      i := i + 1;
    }
  }

  // ---------------------------------------------------------------- dropping from the head

  /** Every section that still fits in what is left to drop is dropped, wherever it stands. */
  ghost function HeadKept(ss: seq<Section>, toDrop: int): seq<Section> {
    if ss == [] then []
    else if ss[0].tokenCount <= toDrop then HeadKept(ss[1..], toDrop - ss[0].tokenCount)
    else [ss[0]] + HeadKept(ss[1..], toDrop)
  }

  /** At most `toDrop` tokens go, and none of the kept sections could have gone as well. */
  lemma {:induction false} HeadKeptIsMaximalDrop(ss: seq<Section>, toDrop: nat)
    ensures Total(ss) - toDrop <= Total(HeadKept(ss, toDrop)) <= Total(ss)
    ensures forall s :: s in HeadKept(ss, toDrop) ==> s in ss && Total(HeadKept(ss, toDrop)) - s.tokenCount < Total(ss) - toDrop
  {
    if ss != [] {
      assert ss == [ss[0]] + ss[1..];
      if ss[0].tokenCount <= toDrop {
        HeadKeptIsMaximalDrop(ss[1..], toDrop - ss[0].tokenCount);
      } else {
        HeadKeptIsMaximalDrop(ss[1..], toDrop);
        var rest := HeadKept(ss[1..], toDrop);
        assert HeadKept(ss, toDrop)[1..] == rest;
      }
    }
  }

  /** So an over-budget context keeps at least the budget, but would fall below it if any one kept
      section went as well. */
  lemma HeadDropKeepsBudget(ss: seq<Section>, budget: int)
    requires Total(ss) > budget
    ensures var kept := HeadKept(ss, Total(ss) - budget);
            Total(kept) >= budget && forall s :: s in kept ==> Total(kept) - s.tokenCount < budget
  {
    HeadKeptIsMaximalDrop(ss, Total(ss) - budget);
  }

  lemma {:induction false} HeadKeptBounded(ss: seq<Section>, toDrop: int)
    ensures |HeadKept(ss, toDrop)| <= |ss|
    ensures HeadKept(ss, toDrop) == ss <==> forall j :: 0 <= j < |ss| ==> ss[j].tokenCount > toDrop
  {
    if ss != [] {
      assert ss == [ss[0]] + ss[1..];
      HeadKeptBounded(ss[1..], toDrop - ss[0].tokenCount);
      HeadKeptBounded(ss[1..], toDrop);
      if ss[0].tokenCount > toDrop {
        assert HeadKept(ss, toDrop)[1..] == HeadKept(ss[1..], toDrop);
        assert forall j :: 0 <= j < |ss[1..]| ==> ss[1..][j] == ss[j + 1];
      }
    }
  }

  lemma {:induction false} HeadKeptSkips(ss: seq<Section>, toDrop: int, m: nat)
    requires m <= |ss| && forall j :: 0 <= j <= m ==> Total(ss[..j]) <= toDrop || j == 0
    ensures HeadKept(ss, toDrop) == HeadKept(ss[m..], toDrop - Total(ss[..m]))
  {
    if m > 0 {
      assert ss[..1] == [ss[0]] && Total(ss[..1]) == ss[0].tokenCount + Total([]);
      forall j | 0 <= j <= m - 1 ensures Total(ss[1..][..j]) <= toDrop - ss[0].tokenCount || j == 0 {
        assert ss[..j + 1][1..] == ss[1..][..j];
      }
      HeadKeptSkips(ss[1..], toDrop - ss[0].tokenCount, m - 1);
      assert ss[1..][m - 1..] == ss[m..];
      assert ss[..m][1..] == ss[1..][..m - 1];
    }
  }

  /** "Drops from the beginning" is right exactly when, behind the first kept section, nothing is small
      enough to be dropped. `m` is the length of the longest head that fits in what is to be dropped. */
  lemma HeadDropIsSuffixExactly(ss: seq<Section>, toDrop: nat, m: nat)
    requires m <= |ss| && Total(ss[..m]) <= toDrop
    requires m < |ss| ==> Total(ss[..m + 1]) > toDrop
    ensures HeadKept(ss, toDrop) == ss[m..] <==> forall j :: m < j < |ss| ==> Total(ss[..m]) + ss[j].tokenCount > toDrop
  {
    hide Total;
    hide HeadKept;
    forall j | 0 <= j <= m ensures Total(ss[..j]) <= toDrop {
      assert ss[..m] == ss[..j] + ss[j..m];
      TotalConcat(ss[..j], ss[j..m]);
    }
    HeadKeptSkips(ss, toDrop, m);
    HeadKeptBounded(ss[m..], toDrop - Total(ss[..m]));
    if m < |ss| {
      TotalNext(ss, m);
    }
    TailIndices(ss, m, toDrop - Total(ss[..m]));
  }

  lemma TailIndices(ss: seq<Section>, m: nat, room: int)
    requires m <= |ss| && (m < |ss| ==> ss[m].tokenCount > room)
    ensures (forall j :: 0 <= j < |ss[m..]| ==> ss[m..][j].tokenCount > room) <==>
            forall j :: m < j < |ss| ==> ss[j].tokenCount > room
  {
    assert forall j :: 0 <= j < |ss[m..]| ==> ss[m..][j] == ss[m + j];
    assert forall j :: m <= j < |ss| ==> ss[j] == ss[m..][j - m];
  }

  /** A small section behind a big one is dropped in its place. */
  lemma HeadDropCanSkipTheHead()
    ensures var big, small := Section([1], 0, Filler(40), 10), Section([2], 1, Filler(4), 1);
            IsLiteral(big) && IsLiteral(small) && HeadKept([big, small], 1) == [big]
  {
    var big, small := Section([1], 0, Filler(40), 10), Section([2], 1, Filler(4), 1);
    assert [big, small][1..] == [small] && [small][1..] == [];
    assert HeadKept([small], 1) == [];
  }

  method HeadDropTruncation(ss: seq<Section>, budget: int) returns (result: seq<Section>)
    ensures result == if Total(ss) <= budget then ss else HeadKept(ss, Total(ss) - budget)
  {
    var totalTokens := SumTokens(ss);
    var toDrop := totalTokens - budget;
    if toDrop <= 0 {
      return ss;
    }
    result := [];
    var dropped := 0;
    for i := 0 to |ss|
      invariant result + HeadKept(ss[i..], toDrop - dropped) == HeadKept(ss, toDrop)
    {
      assert ss[i..][1..] == ss[i + 1..];
      if dropped + ss[i].tokenCount <= toDrop {
        dropped := dropped + ss[i].tokenCount;
      } else {
        result := result + [ss[i]];
      }
    }
  }

  // ---------------------------------------------------------------- proportional cuts

  /** The integer part of x * budget / total. */
  function Share(x: nat, budget: nat, total: nat): nat
    requires total > 0
  {
    x * budget / total
  }

  lemma ShareBounds(x: nat, budget: nat, total: nat)
    requires total > 0
    ensures Share(x, budget, total) * total <= x * budget < Share(x, budget, total) * total + total
    ensures budget <= total ==> Share(x, budget, total) <= x
  {
    var p := x * budget;
    var q := p / total;
    assert p == q * total + p % total;
    if budget <= total {
      assert p <= x * total;
      CancelFactor(q, x, total);
    }
  }

  lemma CancelFactor(q: int, x: int, t: int)
    requires t > 0 && q * t <= x * t
    ensures q <= x
  {
  }

  /** A share of the tokens, but never less than one, and a share of the content. */
  function Scale(s: Section, budget: nat, total: nat): Section
    requires total > 0 && budget <= total
  {
    ShareBounds(|s.content|, budget, total);
    var tokens := Share(s.tokenCount, budget, total);
    Section(s.name, s.priority, s.content[..Share(|s.content|, budget, total)], if tokens < 1 then 1 else tokens)
  }

  ghost function ScaleAll(ss: seq<Section>, budget: nat, total: nat): seq<Section>
    requires total > 0 && budget <= total
  {
    if ss == [] then [] else [Scale(ss[0], budget, total)] + ScaleAll(ss[1..], budget, total)
  }

  /** `r` is `s` scaled by budget / total: the same name and priority, a prefix of the content, and whole
      parts of both lengths, but never less than one token. */
  ghost predicate IsScaled(s: Section, r: Section, budget: nat, total: nat) {
    && r.name == s.name && r.priority == s.priority && r.content <= s.content
    && |r.content| * total <= |s.content| * budget < (|r.content| + 1) * total
    && if s.tokenCount * budget < total then r.tokenCount == 1
       else r.tokenCount * total <= s.tokenCount * budget < (r.tokenCount + 1) * total
  }

  lemma WholePart(x: nat, budget: nat, total: nat)
    requires total > 0
    ensures var q := Share(x, budget, total);
            q * total <= x * budget < (q + 1) * total && (q == 0 <==> x * budget < total)
  {
    var q := Share(x, budget, total);
    ShareBounds(x, budget, total);
    hide Share;
    ZeroShare(q, x * budget, total);
    assert (q + 1) * total == q * total + total;
  }

  lemma ScaleIsScaled(s: Section, budget: nat, total: nat)
    requires total > 0 && budget <= total
    ensures IsScaled(s, Scale(s, budget, total), budget, total)
  {
    hide Share;
    ShareBounds(|s.content|, budget, total);
    WholePart(|s.content|, budget, total);
    WholePart(s.tokenCount, budget, total);
  }

  lemma {:induction false} AllAreScaled(ss: seq<Section>, budget: nat, total: nat)
    requires total > 0 && budget <= total
    ensures var r := ScaleAll(ss, budget, total);
            |r| == |ss| && forall i :: 0 <= i < |ss| ==> IsScaled(ss[i], r[i], budget, total)
  {
    hide IsScaled;
    hide Scale;
    if ss != [] {
      ScaleIsScaled(ss[0], budget, total);
      AllAreScaled(ss[1..], budget, total);
      var rest := ScaleAll(ss[1..], budget, total);
      forall i | 0 < i < |ss| ensures IsScaled(ss[i], ScaleAll(ss, budget, total)[i], budget, total) {
        assert ss[i] == ss[1..][i - 1] && ScaleAll(ss, budget, total)[i] == rest[i - 1];
      }
    }
  }

  /** How many sections have a share that rounds to zero. */
  ghost function Zeros(ss: seq<Section>, budget: nat, total: nat): nat {
    if ss == [] then 0 else (if ss[0].tokenCount * budget < total then 1 else 0) + Zeros(ss[1..], budget, total)
  }

  ghost function Shares(ss: seq<Section>, budget: nat, total: nat): nat
    requires total > 0
  {
    if ss == [] then 0 else Share(ss[0].tokenCount, budget, total) + Shares(ss[1..], budget, total)
  }

  lemma {:induction false} ScaledTotal(ss: seq<Section>, budget: nat, total: nat)
    requires total > 0 && budget <= total
    ensures Total(ScaleAll(ss, budget, total)) == Shares(ss, budget, total) + Zeros(ss, budget, total)
  {
    if ss != [] {
      ScaledTotal(ss[1..], budget, total);
      ShareBounds(ss[0].tokenCount, budget, total);
      ZeroShare(Share(ss[0].tokenCount, budget, total), ss[0].tokenCount * budget, total);
      assert ScaleAll(ss, budget, total)[1..] == ScaleAll(ss[1..], budget, total);
    }
  }

  lemma ZeroShare(q: nat, p: nat, total: nat)
    requires q * total <= p < q * total + total
    ensures q == 0 <==> p < total
  {
    if q > 0 {
      assert q * total >= total;
    }
  }

  /** Rounding loses less than one token per section. */
  lemma {:induction false} SharesBounds(ss: seq<Section>, budget: nat, total: nat)
    requires total > 0
    ensures Shares(ss, budget, total) * total <= Total(ss) * budget <= Shares(ss, budget, total) * total + |ss| * total
    ensures ss != [] ==> Total(ss) * budget < Shares(ss, budget, total) * total + |ss| * total
  {
    if ss != [] {
      SharesBounds(ss[1..], budget, total);
      ShareBounds(ss[0].tokenCount, budget, total);
      SharesStep(Share(ss[0].tokenCount, budget, total), Shares(ss[1..], budget, total), ss[0].tokenCount, Total(ss[1..]),
                 |ss[1..]|, budget, total);
    }
  }

  lemma SharesStep(q: nat, r: nat, x: nat, y: nat, n: nat, budget: nat, total: nat)
    requires q * total <= x * budget < q * total + total
    requires r * total <= y * budget <= r * total + n * total
    ensures (q + r) * total <= (x + y) * budget < (q + r) * total + (n + 1) * total
  {
    assert (q + r) * total == q * total + r * total;
    assert (x + y) * budget == x * budget + y * budget;
    assert (n + 1) * total == n * total + total;
  }

  /** Over budget, a proportional cut ends above the budget less one token per section, and at most at
      the budget plus one token per section whose share rounds to zero. */
  lemma ProportionalBounds(ss: seq<Section>, budget: nat)
    requires Total(ss) > budget
    ensures var t := Total(ScaleAll(ss, budget, Total(ss)));
            budget - |ss| < t <= budget + Zeros(ss, budget, Total(ss))
  {
    hide Total;
    hide Shares;
    hide Zeros;
    hide ScaleAll;
    var total := Total(ss);
    ScaledTotal(ss, budget, total);
    SharesBounds(ss, budget, total);
    assert ss != [] by { EmptyTotal(ss); }
    RoundingLoss(Shares(ss, budget, total), |ss|, budget, total);
  }

  lemma EmptyTotal(ss: seq<Section>)
    ensures ss == [] ==> Total(ss) == 0
  {
  }

  lemma RoundingLoss(q: nat, n: nat, budget: nat, total: nat)
    requires total > 0 && q * total <= total * budget < q * total + n * total
    ensures budget - n < q <= budget
  {
    assert total * budget == budget * total;
    CancelFactor(q, budget, total);
    assert (q + n) * total == q * total + n * total;
    CancelStrict(budget, q + n, total);
  }

  lemma CancelStrict(q: int, x: int, t: int)
    requires t > 0 && q * t < x * t
    ensures q < x
  {
    assert q >= x ==> q * t >= x * t;
  }

  /** What rounding cuts off the shares, in units of one over `total`. */
  ghost function Remainders(ss: seq<Section>, budget: nat, total: nat): nat
    requires total > 0
  {
    if ss == [] then 0 else ss[0].tokenCount * budget % total + Remainders(ss[1..], budget, total)
  }

  lemma {:induction false} SharesAndRemainders(ss: seq<Section>, budget: nat, total: nat)
    requires total > 0
    ensures Shares(ss, budget, total) * total + Remainders(ss, budget, total) == Total(ss) * budget
  {
    if ss != [] {
      SharesAndRemainders(ss[1..], budget, total);
      DivisionStep(ss[0].tokenCount, Total(ss[1..]), Share(ss[0].tokenCount, budget, total), Shares(ss[1..], budget, total),
                   budget, total);
    }
  }

  lemma DivisionStep(x: nat, y: nat, q: nat, r: nat, budget: nat, total: nat)
    requires total > 0 && q == x * budget / total
    ensures (q + r) * total + x * budget % total == x * budget + r * total
    ensures (x + y) * budget == x * budget + y * budget
  {
    var p := x * budget;
    assert p == p / total * total + p % total;
    assert (q + r) * total == q * total + r * total;
  }

  /** It fits the budget exactly when the remainders of the shares are worth a token for every section
      whose share is less than one. */
  lemma ProportionalFitsExactly(ss: seq<Section>, budget: nat)
    requires Total(ss) > budget
    ensures var total := Total(ss);
            Total(ScaleAll(ss, budget, total)) <= budget <==> Zeros(ss, budget, total) * total <= Remainders(ss, budget, total)
  {
    var total := Total(ss);
    ScaledTotal(ss, budget, total);
    SharesAndRemainders(ss, budget, total);
    hide *;
    FreedTokens(Shares(ss, budget, total), Zeros(ss, budget, total), Remainders(ss, budget, total), budget, total);
  }

  lemma FreedTokens(shares: nat, zeros: nat, remainders: nat, budget: nat, total: nat)
    requires total > 0 && shares * total + remainders == total * budget
    ensures shares + zeros <= budget <==> zeros * total <= remainders
  {
    assert (shares + zeros) * total == shares * total + zeros * total;
    assert budget * total == total * budget;
    if zeros * total <= remainders {
      CancelFactor(shares + zeros, budget, total);
    } else {
      CancelStrict(budget, shares + zeros, total);
    }
  }

  lemma {:induction false} NoZeros(ss: seq<Section>, budget: nat, total: nat)
    requires forall s :: s in ss ==> s.tokenCount * budget >= total
    ensures Zeros(ss, budget, total) == 0
  {
    if ss != [] {
      assert ss[0] in ss;
      NoZeros(ss[1..], budget, total);
    }
  }

  /** Sections that are all large enough for one token of the budget fit. */
  lemma LargeSectionsFit(ss: seq<Section>, budget: nat)
    requires Total(ss) > budget && forall s :: s in ss ==> s.tokenCount * budget >= Total(ss)
    ensures Total(ScaleAll(ss, budget, Total(ss))) <= budget
  {
    NoZeros(ss, budget, Total(ss));
    ProportionalBounds(ss, budget);
  }

  lemma {:induction false} OneTokenEach(ss: seq<Section>, budget: nat, total: nat)
    requires total > 0 && budget <= total
    ensures Total(ScaleAll(ss, budget, total)) >= |ss|
  {
    if ss != [] {
      OneTokenEach(ss[1..], budget, total);
      assert ScaleAll(ss, budget, total)[1..] == ScaleAll(ss[1..], budget, total);
    }
  }

  /** More sections than tokens never fit. */
  lemma FittingNeedsRoom(ss: seq<Section>, budget: nat)
    requires Total(ss) > budget && Total(ScaleAll(ss, budget, Total(ss))) <= budget
    ensures |ss| <= budget
  {
    OneTokenEach(ss, budget, Total(ss));
  }

  /** Three small sections and a budget of one: the cut context is three times too long. */
  lemma ProportionalCanOverrun()
    ensures var s := Section([], 0, Filler(16), 4);
            IsLiteral(s) && Total([s, s, s]) == 12 && Total(ScaleAll([s, s, s], 1, 12)) == 3
  {
    var s := Section([], 0, Filler(16), 4);
    assert [s, s, s][1..] == [s, s] && [s, s][1..] == [s] && [s][1..] == [];
    assert Total([s]) == 4 && Total([s, s]) == 8;
    assert Zeros([s], 1, 12) == 1 && Zeros([s, s], 1, 12) == 2;
    assert Shares([s], 1, 12) == 0 && Shares([s, s], 1, 12) == 0;
    ScaledTotal([s, s, s], 1, 12);
  }

  /** Go's conversion of a quotient to an integer truncates towards zero. */
  function Truncate(p: int, total: nat): int
    requires total > 0
  {
    if p >= 0 then p / total else -(-p / total)
  }

  lemma NegativeShare(x: nat, budget: int, total: nat)
    requires total > 0 && budget < 0
    ensures Truncate(x * budget, total) <= 0
    ensures Truncate(x * budget, total) < 0 <==> x * -budget >= total
  {
    assert x * budget == -(x * -budget) && x * -budget >= 0;
    var p := x * -budget;
    assert p == p / total * total + p % total;
  }

  /** Under a negative budget: does the cut of some content start before its first byte? */
  ghost predicate OutOfRange(ss: seq<Section>, budget: int, total: nat) {
    exists i :: 0 <= i < |ss| && |ss[i].content| * -budget >= total
  }

  function Blank(s: Section): Section { Section(s.name, s.priority, [], 1) }

  /** The proportional cut for every budget; None stands for the panic of an out-of-range slice. */
  ghost function Cut(ss: seq<Section>, budget: int): Option<seq<Section>>
    requires Total(ss) > budget
  {
    if budget >= 0 then Some(ScaleAll(ss, budget, Total(ss)))
    else if OutOfRange(ss, budget, Total(ss)) then None
    else Some(Map(ss, Blank))
  }

  /** With a negative budget and no tokens at all the source converts a NaN to an integer, which Go
      leaves open; that case is excluded unless there are no sections. */
  method ProportionalTruncation(ss: seq<Section>, budget: int) returns (result: Option<seq<Section>>)
    requires budget < 0 ==> Total(ss) > 0 || ss == []
    ensures result == if Total(ss) <= budget then Some(ss) else Cut(ss, budget)
  {
    var totalTokens := SumTokens(ss);
    if totalTokens <= budget {
      return Some(ss);
    }
    hide CutSoFar;
    hide Cut;
    hide Total;
    var scaled := [];
    CutStarts(ss, budget, totalTokens);
    for i := 0 to |ss|
      invariant CutSoFar(ss, i, budget, totalTokens, scaled)
    {
      var s := CutSection(ss[i], budget, totalTokens);
      CutStep(ss, i, budget, totalTokens, scaled);
      if s.None? {
        return None;
      }
      scaled := scaled + [s.value];
    }
    CutEnds(ss, budget, totalTokens, scaled);
    return Some(scaled);
  }

  /** `scaled` is what becomes of the first `i` sections. */
  ghost predicate CutSoFar(ss: seq<Section>, i: nat, budget: int, total: nat, scaled: seq<Section>)
    requires i <= |ss| && budget <= total
  {
    && |scaled| == i
    && (total > 0 && budget >= 0 ==> scaled + ScaleAll(ss[i..], budget, total) == ScaleAll(ss, budget, total))
    && (total > 0 && budget < 0 ==> scaled == Map(ss[..i], Blank) && !OutOfRange(ss[..i], budget, total))
  }

  lemma CutStarts(ss: seq<Section>, budget: int, total: nat)
    requires budget < total
    ensures CutSoFar(ss, 0, budget, total, [])
  {
    assert ss[0..] == ss;
  }

  lemma CutStep(ss: seq<Section>, i: nat, budget: int, total: nat, scaled: seq<Section>)
    requires i < |ss| && total > 0 && budget <= total && CutSoFar(ss, i, budget, total, scaled)
    ensures budget >= 0 ==> CutSoFar(ss, i + 1, budget, total, scaled + [Scale(ss[i], budget, total)])
    ensures budget < 0 && |ss[i].content| * -budget < total ==> CutSoFar(ss, i + 1, budget, total, scaled + [Blank(ss[i])])
    ensures budget < 0 && |ss[i].content| * -budget >= total ==> OutOfRange(ss, budget, total)
  {
    if budget >= 0 {
      assert ss[i..][1..] == ss[i + 1..];
      assert scaled + ([Scale(ss[i], budget, total)] + ScaleAll(ss[i + 1..], budget, total))
          == (scaled + [Scale(ss[i], budget, total)]) + ScaleAll(ss[i + 1..], budget, total);
    } else {
      BlankStep(ss, i, budget, total, scaled);
    }
  }

  lemma BlankStep(ss: seq<Section>, i: nat, budget: int, total: nat, scaled: seq<Section>)
    requires i < |ss| && scaled == Map(ss[..i], Blank) && !OutOfRange(ss[..i], budget, total)
    ensures scaled + [Blank(ss[i])] == Map(ss[..i + 1], Blank)
    ensures |ss[i].content| * -budget < total ==> !OutOfRange(ss[..i + 1], budget, total)
  {
    hide Map;
    assert forall j :: 0 <= j < i ==> ss[..i + 1][j] == ss[..i][j];
  }

  lemma CutEnds(ss: seq<Section>, budget: int, total: nat, scaled: seq<Section>)
    requires total == Total(ss) > budget
    requires total > 0 || ss == []
    requires CutSoFar(ss, |ss|, budget, total, scaled)
    ensures Cut(ss, budget) == Some(scaled)
  {
    assert ss[..|ss|] == ss && ss[|ss|..] == [];
    assert budget >= 0 ==> scaled + ScaleAll([], budget, total) == scaled;
  }

  /** One turn of the loop. */
  method CutSection(s: Section, budget: int, totalTokens: nat) returns (r: Option<Section>)
    requires totalTokens > 0 && budget <= totalTokens
    ensures budget >= 0 ==> r == Some(Scale(s, budget, totalTokens))
    ensures budget < 0 ==> r == if |s.content| * -budget >= totalTokens then None else Some(Blank(s))
  {
    if budget < 0 {
      NegativeShare(s.tokenCount, budget, totalTokens);
      NegativeShare(|s.content|, budget, totalTokens);
    } else {
      ShareBounds(|s.content|, budget, totalTokens);
    }
    var newTokenCount := Truncate(s.tokenCount * budget, totalTokens);
    if newTokenCount < 1 {
      newTokenCount := 1;
    }
    var newLength := Truncate(|s.content| * budget, totalTokens);
    if newLength > |s.content| {
      newLength := |s.content|;
    }
    if newLength < 0 {
      return None;
    }
    return Some(Section(s.name, s.priority, s.content[..newLength], newTokenCount));
  }

  // ---------------------------------------------------------------- the builder

  predicate MoreUrgent(a: Section, b: Section) { a.priority < b.priority }

  /** What a strategy makes of sorted sections whose total exceeds the budget. */
  ghost function Truncated(strategy: Truncation, ss: seq<Section>, budget: int): Option<seq<Section>>
    requires Total(ss) > budget
  {
    match strategy
    case TailDrop => Some(TailKept(ss, budget))
    case HeadDrop => Some(HeadKept(ss, Total(ss) - budget))
    case Proportional => Cut(ss, budget)
    case OtherStrategy => Some(ss)
  }

  lemma {:induction false} TotalOfPermutation(ss: seq<Section>, ts: seq<Section>)
    requires multiset(ss) == multiset(ts)
    ensures Total(ss) == Total(ts)
    decreases |ss|
  {
    SameSize(ss, ts);
    if ss != [] {
      assert ss[0] in multiset(ts);
      var j :| 0 <= j < |ts| && ts[j] == ss[0];
      WithoutOne(ss, 0);
      WithoutOne(ts, j);
      CancelOne(multiset(Without(ss, 0)), multiset(Without(ts, j)), ss[0]);
      TotalOfPermutation(Without(ss, 0), Without(ts, j));
      TotalWithout(ss, 0);
      TotalWithout(ts, j);
    }
  }

  lemma TotalWithout(ss: seq<Section>, j: nat)
    requires j < |ss|
    ensures Total(ss) == ss[j].tokenCount + Total(Without(ss, j))
  {
    hide Total;
    var head, tail := ss[..j + 1], ss[j + 1..];
    TotalNext(ss, j);
    assert ss == head + tail;
    TotalConcat(head, tail);
    TotalConcat(ss[..j], tail);
  }

  class ContextQueryBuilder {
    var tokenBudget: int
    var truncation: Truncation
    var sections: seq<Section>

    constructor ()
      ensures tokenBudget == 4096 && truncation == TailDrop && sections == []
    {
      tokenBudget, truncation, sections := 4096, TailDrop, [];
    }

    method WithBudget(tokens: int)
      modifies this`tokenBudget
      ensures tokenBudget == tokens
    {
      tokenBudget := tokens;
    }

    method SetTruncation(strategy: Truncation)
      modifies this`truncation
      ensures truncation == strategy
    {
      truncation := strategy;
    }

    /** Four bytes count as one token. */
    method Literal(name: ByteString, priority: int, text: ByteString)
      modifies this`sections
      ensures sections == old(sections) + [Section(name, priority, text, |text| / 4)]
      ensures IsLiteral(sections[|sections| - 1])
    {
      sections := sections + [Section(name, priority, text, |text| / 4)];
    }

    /** `sorted` is the priority order that was used. There is no result exactly when a negative budget
        makes a proportional cut slice out of range. */
    method Execute() returns (result: Option<seq<Section>>, tokenCount: nat, truncated: bool, ghost sorted: seq<Section>)
      requires truncation == Proportional && tokenBudget < 0 ==> Total(sections) > 0 || sections == []
      ensures multiset(sorted) == multiset(sections) && SortedBy(sorted, MoreUrgent)
      ensures forall i, j :: 0 <= i < j < |sorted| ==> sorted[i].priority <= sorted[j].priority
      ensures truncated <==> Total(sections) > tokenBudget
      ensures truncated && truncation == Proportional && result.Some? ==>
                IsCutOf(sorted, result.value, tokenBudget, Total(sections))
      ensures truncated ==> Total(sorted) > tokenBudget && result == Truncated(truncation, sorted, tokenBudget)
      ensures !truncated ==> result == Some(sorted)
      ensures result.None? <==> truncation == Proportional && tokenBudget < 0 && OutOfRange(sections, tokenBudget, Total(sections))
      ensures result.Some? ==> tokenCount == Total(result.value)
      ensures truncation == TailDrop && tokenBudget >= 0 ==> tokenCount <= tokenBudget
      ensures truncated && truncation == HeadDrop ==> tokenCount >= tokenBudget
      ensures truncated && truncation == Proportional && tokenBudget >= 0 ==>
                tokenBudget - |sections| < tokenCount <= tokenBudget + |sections|
      ensures truncation == Proportional && tokenBudget < 0 && result.Some? ==> tokenCount == |sections|
    {
      hide IsCutOf;
      var sortedSections := SortSlice(sections, MoreUrgent);
      sorted := sortedSections;
      UrgentFirst(sorted);
      TotalOfPermutation(sections, sorted);
      SameSize(sections, sorted);
      SameRange(sections, sorted, tokenBudget, Total(sections));
      var totalTokens := SumTokens(sortedSections);
      truncated := totalTokens > tokenBudget;
      tokenCount := 0;
      result := Some(sortedSections);
      if truncated {
        result := ApplyTruncation(sortedSections);
        TruncatedTotals(truncation, sorted, tokenBudget);
        if truncation == Proportional && result.Some? {
          CutOnFields(sorted, tokenBudget);
        }
      }
      if result.Some? {
        tokenCount := SumTokens(result.value);
      }
    }

    method ApplyTruncation(ss: seq<Section>) returns (result: Option<seq<Section>>)
      requires Total(ss) > tokenBudget
      requires truncation == Proportional && tokenBudget < 0 ==> Total(ss) > 0 || ss == []
      ensures result == Truncated(truncation, ss, tokenBudget)
    {
      match truncation {
        case TailDrop =>
          var kept := TailDropTruncation(ss, tokenBudget);
          return Some(kept);
        case HeadDrop =>
          var kept := HeadDropTruncation(ss, tokenBudget);
          return Some(kept);
        case Proportional =>
          result := ProportionalTruncation(ss, tokenBudget);
        case OtherStrategy =>
          return Some(ss);
      }
    }
  }

  /** What a proportional cut makes of each section; below zero only names and priorities are left. */
  ghost predicate IsCutOf(ss: seq<Section>, r: seq<Section>, budget: int, total: nat) {
    && |r| == |ss|
    && forall i :: 0 <= i < |ss| ==>
         if budget >= 0 then IsScaled(ss[i], r[i], budget, total)
         else r[i].name == ss[i].name && r[i].priority == ss[i].priority && r[i].content == [] && r[i].tokenCount == 1
  }

  lemma CutOnFields(ss: seq<Section>, budget: int)
    requires Total(ss) > budget && Cut(ss, budget).Some?
    ensures IsCutOf(ss, Cut(ss, budget).value, budget, Total(ss))
  {
    hide IsScaled;
    if budget >= 0 {
      AllAreScaled(ss, budget, Total(ss));
    }
  }

  lemma UrgentFirst(ss: seq<Section>)
    requires SortedBy(ss, MoreUrgent)
    ensures forall i, j :: 0 <= i < j < |ss| ==> ss[i].priority <= ss[j].priority
  {
    forall i, j | 0 <= i < j < |ss| ensures ss[i].priority <= ss[j].priority {
      assert !MoreUrgent(ss[j], ss[i]);
    }
  }

  lemma SameRange(ss: seq<Section>, ts: seq<Section>, budget: int, total: nat)
    requires multiset(ss) == multiset(ts)
    ensures OutOfRange(ss, budget, total) <==> OutOfRange(ts, budget, total)
  {
    if OutOfRange(ss, budget, total) {
      RangeOfPermutation(ss, ts, budget, total);
    }
    if OutOfRange(ts, budget, total) {
      RangeOfPermutation(ts, ss, budget, total);
    }
  }

  lemma RangeOfPermutation(ss: seq<Section>, ts: seq<Section>, budget: int, total: nat)
    requires multiset(ss) == multiset(ts) && OutOfRange(ss, budget, total)
    ensures OutOfRange(ts, budget, total)
  {
    var i :| 0 <= i < |ss| && |ss[i].content| * -budget >= total;
    assert ss[i] in multiset(ts);
    var j :| 0 <= j < |ts| && ts[j] == ss[i];
  }

  lemma {:induction false} BlankTotal(ss: seq<Section>)
    ensures Total(Map(ss, Blank)) == |ss|
  {
    if ss != [] {
      BlankTotal(ss[1..]);
      assert Map(ss, Blank)[1..] == Map(ss[1..], Blank);
    }
  }

  /** What each strategy promises about the resulting total. */
  lemma TruncatedTotals(strategy: Truncation, ss: seq<Section>, budget: int)
    requires Total(ss) > budget
    ensures var r := Truncated(strategy, ss, budget);
            && (strategy == TailDrop && budget >= 0 ==> Total(r.value) <= budget)
            && (strategy == HeadDrop ==> Total(r.value) >= budget)
            && (strategy == Proportional && budget >= 0 ==> budget - |ss| < Total(r.value) <= budget + |ss|)
            && (strategy == Proportional && budget < 0 && r.Some? ==> Total(r.value) == |ss|)
  {
    hide Total;
    hide Cut;
    hide TailKept;
    hide HeadKept;
    match strategy
    case TailDrop => TailKeptIsLongestPrefix(ss, budget);
    case HeadDrop => HeadDropKeepsBudget(ss, budget);
    case Proportional => CutTotals(ss, budget);
    case OtherStrategy =>
  }

  lemma CutTotals(ss: seq<Section>, budget: int)
    requires Total(ss) > budget
    ensures var r := Cut(ss, budget);
            && (budget >= 0 ==> r.Some? && budget - |ss| < Total(r.value) <= budget + |ss|)
            && (budget < 0 && r.Some? ==> Total(r.value) == |ss|)
  {
    hide Total;
    hide ScaleAll;
    hide Map;
    if budget >= 0 {
      ProportionalBounds(ss, budget);
      ZerosBounded(ss, budget, Total(ss));
    } else {
      BlankTotal(ss);
    }
  }

  lemma {:induction false} ZerosBounded(ss: seq<Section>, budget: nat, total: nat)
    ensures Zeros(ss, budget, total) <= |ss|
  {
    if ss != [] {
      ZerosBounded(ss[1..], budget, total);
    }
  }
}
