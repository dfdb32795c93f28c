/** Go's `sort.Slice`, some sorted permutation of its input and not necessarily a stable one, and what
    stays the same when a list is permuted, mapped or filtered. */
module Lists {

  /** Is `less` a strict weak order on the elements of `s`, as `sort.Slice` demands? */
  ghost predicate IsStrictWeak<T(!new)>(less: (T, T) -> bool, s: seq<T>) {
    && (forall x, y :: x in s && y in s && less(x, y) ==> !less(y, x))
    && (forall x, y, z :: x in s && y in s && z in s && !less(y, x) && !less(z, y) ==> !less(z, x))
  }

  ghost predicate SortedBy<T(!new)>(s: seq<T>, less: (T, T) -> bool) {
    forall i, j :: 0 <= i < j < |s| ==> !less(s[j], s[i])
  }

  lemma InsertSorted<T(!new)>(s: seq<T>, r: seq<T>, x: T, k: nat, less: (T, T) -> bool)
    requires IsStrictWeak(less, s) && x in s && forall y :: y in r ==> y in s
    requires SortedBy(r, less) && k <= |r|
    requires forall j :: 0 <= j < k ==> !less(x, r[j])
    requires k < |r| ==> less(x, r[k])
    ensures SortedBy(r[..k] + [x] + r[k..], less)
  {
    forall j | k <= j < |r| ensures !less(r[j], x) {
      assert r[k] in s && r[j] in s;
      assert j == k || !less(r[j], r[k]);
    }
    var q := r[..k] + [x] + r[k..];
    forall i | 0 <= i < |q| ensures q[i] == if i < k then r[i] else if i == k then x else r[i - 1] {
    }
  }

  lemma InsertPermutes<T(!new)>(r: seq<T>, x: T, k: nat)
    requires k <= |r|
    ensures multiset(r[..k] + [x] + r[k..]) == multiset(r) + multiset{x}
  {
    assert r == r[..k] + r[k..];
  }

  lemma PermutedElements<T(!new)>(r: seq<T>, s: seq<T>, i: nat)
    requires i <= |s| && multiset(r) == multiset(s[..i])
    ensures forall y :: y in r ==> y in s
  {
    forall y | y in r ensures y in s {
      assert y in multiset(r);
      assert y in s[..i];
    }
  }

  /** Without such an order only a permutation is promised. */
  method SortSlice<T(!new)>(s: seq<T>, less: (T, T) -> bool) returns (r: seq<T>)
    ensures multiset(r) == multiset(s)
    ensures IsStrictWeak(less, s) ==> SortedBy(r, less)
  {
    hide IsStrictWeak;
    r := [];
    for i := 0 to |s|
      invariant multiset(r) == multiset(s[..i])
      invariant IsStrictWeak(less, s) ==> SortedBy(r, less)
    {
      var k := 0;
      while k < |r| && !less(s[i], r[k])
        invariant 0 <= k <= |r|
        invariant forall j :: 0 <= j < k ==> !less(s[i], r[j])
      {
        k := k + 1;
      }
      assert s[..i + 1] == s[..i] + [s[i]];
      if IsStrictWeak(less, s) {
        PermutedElements(r, s, i);
        InsertSorted(s, r, s[i], k, less);
      }
      InsertPermutes(r, s[i], k);
      r := r[..k] + [s[i]] + r[k..];
    }
    assert s[..|s|] == s;
  }

  ghost function Map<A(!new), B(!new)>(s: seq<A>, f: A -> B): (r: seq<B>)
    ensures |r| == |s| && forall i :: 0 <= i < |s| ==> r[i] == f(s[i])
  {
    if s == [] then [] else [f(s[0])] + Map(s[1..], f)
  }

  ghost function Without<T(!new)>(s: seq<T>, j: nat): seq<T>
    requires j < |s|
  {
    s[..j] + s[j + 1..]
  }

  lemma WithoutOne<T(!new)>(s: seq<T>, j: nat)
    requires j < |s|
    ensures multiset(s) == multiset(Without(s, j)) + multiset{s[j]}
  {
    assert s == s[..j] + [s[j]] + s[j + 1..];
  }

  lemma {:induction false} MapWithout<A(!new), B(!new)>(s: seq<A>, j: nat, f: A -> B)
    requires j < |s|
    ensures Map(Without(s, j), f) == Without(Map(s, f), j)
  {
    hide Map;
    var l, r := Map(Without(s, j), f), Without(Map(s, f), j);
    assert |l| == |r|;
    forall i | 0 <= i < |l| ensures l[i] == r[i] {
      assert Without(s, j)[i] == if i < j then s[i] else s[i + 1];
    }
  }

  lemma CancelOne<T(!new)>(m: multiset<T>, n: multiset<T>, x: T)
    requires m + multiset{x} == n + multiset{x}
    ensures m == n
  {
    forall y ensures m[y] == n[y] {
      assert (m + multiset{x})[y] == (n + multiset{x})[y];
    }
  }

  lemma SameSize<T(!new)>(s: seq<T>, t: seq<T>)
    requires multiset(s) == multiset(t)
    ensures |s| == |t|
  {
    assert |multiset(s)| == |s| && |multiset(t)| == |t|;
  }

  /** Permuting a list and then mapping it permutes the mapped list. */
  lemma {:induction false} MapPermutation<A(!new), B(!new)>(s: seq<A>, t: seq<A>, f: A -> B)
    requires multiset(s) == multiset(t)
    ensures multiset(Map(s, f)) == multiset(Map(t, f))
    decreases |s|
  {
    SameSize(s, t);
    if s != [] {
      assert s[0] in multiset(t);
      var j :| 0 <= j < |t| && t[j] == s[0];
      WithoutOne(s, 0);
      WithoutOne(t, j);
      CancelOne(multiset(Without(s, 0)), multiset(Without(t, j)), s[0]);
      hide Map;
      MapPermutation(Without(s, 0), Without(t, j), f);
      MapWithout(s, 0, f);
      MapWithout(t, j, f);
      WithoutOne(Map(s, f), 0);
      WithoutOne(Map(t, f), j);
    }
  }

  ghost function Filter<T(!new)>(s: seq<T>, p: T -> bool): (r: seq<T>)
    ensures forall x :: x in r <==> x in s && p(x)
  {
    if s == [] then [] else
      var x := s[|s| - 1];
      assert s == s[..|s| - 1] + [x];
      Filter(s[..|s| - 1], p) + if p(x) then [x] else []
  }

  lemma {:induction false} FilterCounts<T(!new)>(s: seq<T>, p: T -> bool, x: T)
    ensures multiset(Filter(s, p))[x] == if p(x) then multiset(s)[x] else 0
  {
    if s != [] {
      FilterCounts(s[..|s| - 1], p, x);
      assert s == s[..|s| - 1] + [s[|s| - 1]];
    }
  }

  lemma {:induction false} FilterSorted<T(!new)>(s: seq<T>, p: T -> bool, less: (T, T) -> bool)
    requires SortedBy(s, less)
    ensures SortedBy(Filter(s, p), less)
  {
    if s != [] {
      var n := |s| - 1;
      FilterSorted(s[..n], p, less);
      var r := Filter(s[..n], p);
      forall i | 0 <= i < |r| ensures !less(s[n], r[i]) {
        assert r[i] in s[..n];
      }
    }
  }

  /** Filtering by two conditions, in two passes with a permutation in between. */
  lemma FilterTwice<T(!new)>(s: seq<T>, t: seq<T>, p: T -> bool, q: T -> bool, pq: T -> bool)
    requires forall x :: pq(x) <==> p(x) && q(x)
    requires multiset(t) == multiset(Filter(s, p))
    ensures multiset(Filter(t, q)) == multiset(Filter(s, pq))
  {
    forall x ensures multiset(Filter(t, q))[x] == multiset(Filter(s, pq))[x] {
      FilterCounts(t, q, x);
      FilterCounts(s, p, x);
      FilterCounts(s, pq, x);
    }
  }

  predicate Descending(s: seq<real>) {
    forall i, j :: 0 <= i < j < |s| ==> s[i] >= s[j]
  }

  /** Numbers in descending order are determined by their multiset. */
  lemma {:induction false} DescendingIsUnique(s: seq<real>, t: seq<real>)
    requires multiset(s) == multiset(t)
    requires Descending(s) && Descending(t)
    ensures s == t
    decreases |s|
  {
    SameSize(s, t);
    if s != [] {
      SameHead(s, t);
      SameTails(s, t);
      DescendingIsUnique(s[1..], t[1..]);
      assert s == [s[0]] + s[1..] && t == [t[0]] + t[1..];
    }
  }

  lemma SameTails<T(!new)>(s: seq<T>, t: seq<T>)
    requires multiset(s) == multiset(t) && s != [] && t != [] && s[0] == t[0]
    ensures multiset(s[1..]) == multiset(t[1..])
  {
    WithoutOne(s, 0);
    WithoutOne(t, 0);
    CancelOne(multiset(Without(s, 0)), multiset(Without(t, 0)), s[0]);
    assert Without(s, 0) == s[1..] && Without(t, 0) == t[1..];
  }

  lemma SameHead(s: seq<real>, t: seq<real>)
    requires multiset(s) == multiset(t) && s != [] && t != []
    requires Descending(s) && Descending(t)
    ensures s[0] == t[0]
  {
    assert s[0] in multiset(t) && t[0] in multiset(s);
    var i :| 0 <= i < |t| && t[i] == s[0];
    var j :| 0 <= j < |s| && s[j] == t[0];
  }
}
