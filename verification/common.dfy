/** Building blocks shared by the server and client models: an optional value,
    the left-to-right sum `reduce((sum, x) => sum + f(x), 0)`, the order-preserving
    `Array.prototype.filter`, and duplicate-free sequences. */
module Common {

  datatype Option<+T> = None | Some(value: T) {
    function GetOr(default: T): T {
      match this
      case Some(v) => v
      case None => default
    }
  }

  /** Σ f(x) over `xs`, folded from the left as `Array.prototype.reduce` with initial value 0. */
  function SumBy<T>(xs: seq<T>, f: T -> int): int
    decreases |xs|
  {
    if |xs| == 0 then 0 else SumBy(xs[..|xs| - 1], f) + f(xs[|xs| - 1])
  }

  lemma {:induction false} SumByConcat<T>(a: seq<T>, b: seq<T>, f: T -> int)
    ensures SumBy(a + b, f) == SumBy(a, f) + SumBy(b, f)
    decreases |b|
  {
    if |b| == 0 {
      assert a + b == a;
    } else {
      var b' := b[..|b| - 1];
      assert (a + b)[..|a + b| - 1] == a + b';
      assert (a + b)[|a + b| - 1] == b[|b| - 1];
      SumByConcat(a, b', f);
    }
  }

  lemma SumBySingleton<T>(x: T, f: T -> int)
    ensures SumBy([x], f) == f(x)
  {
    assert [x][..0] == [];
  }

  /** Two sums agree when their terms agree position by position. */
  lemma {:induction false} SumByPointwise<A, B>(xs: seq<A>, f: A -> int, ys: seq<B>, g: B -> int)
    requires |xs| == |ys|
    requires forall k :: 0 <= k < |xs| ==> f(xs[k]) == g(ys[k])
    ensures SumBy(xs, f) == SumBy(ys, g)
    decreases |xs|
  {
    if |xs| > 0 {
      var n := |xs| - 1;
      assert forall k :: 0 <= k < n ==> xs[..n][k] == xs[k] && ys[..n][k] == ys[k];
      SumByPointwise(xs[..n], f, ys[..n], g);
    }
  }

  /** Dropping one element lowers the sum by its term. */
  lemma SumByDropOne<T>(a: seq<T>, x: T, b: seq<T>, f: T -> int)
    ensures SumBy(a + [x] + b, f) == SumBy(a + b, f) + f(x)
  {
    var ax := a + [x];
    SumByConcat(ax, b, f);
    SumByConcat(a, [x], f);
    SumByConcat(a, b, f);
    SumBySingleton(x, f);
  }

  /** Replacing one element changes the sum by the difference of the two terms. */
  lemma SumByUpdate<T>(xs: seq<T>, i: int, x: T, f: T -> int)
    requires 0 <= i < |xs|
    ensures SumBy(xs[i := x], f) == SumBy(xs, f) - f(xs[i]) + f(x)
  {
    assert xs == xs[..i] + [xs[i]] + xs[i + 1..];
    assert xs[i := x] == xs[..i] + [x] + xs[i + 1..];
    SumByConcat(xs[..i] + [xs[i]], xs[i + 1..], f);
    SumByConcat(xs[..i], [xs[i]], f);
    SumByConcat(xs[..i] + [x], xs[i + 1..], f);
    SumByConcat(xs[..i], [x], f);
    SumBySingleton(xs[i], f);
    SumBySingleton(x, f);
  }

  /** Taking the last element of `a` out of `b`, where it sits at `j`, leaves two sequences
      with equal multisets. */
  lemma PermRemoveLast<T>(a: seq<T>, b: seq<T>, j: int)
    requires multiset(a) == multiset(b) && |a| > 0
    requires 0 <= j < |b| && b[j] == a[|a| - 1]
    ensures b == b[..j] + [b[j]] + b[j + 1..]
    ensures multiset(a[..|a| - 1]) == multiset(b[..j] + b[j + 1..])
  {
    var n, x := |a| - 1, a[|a| - 1];
    var rest := b[..j] + b[j + 1..];
    assert a == a[..n] + [x];
    assert b == b[..j] + [x] + b[j + 1..];
    calc {
      multiset(a[..n]);
      multiset(a) - multiset{x};
      multiset(b) - multiset{x};
      multiset(b[..j]) + multiset(b[j + 1..]);
      multiset(rest);
    }
  }

  /** Sums do not depend on the order of their terms. */
  lemma {:induction false} SumByPerm<T>(a: seq<T>, b: seq<T>, f: T -> int)
    requires multiset(a) == multiset(b)
    ensures SumBy(a, f) == SumBy(b, f)
    decreases |a|
  {
    if |a| == 0 {
      assert |b| == |multiset(b)|;
    } else {
      var n := |a| - 1;
      assert a[n] in multiset(b) by {
        assert a[n] in multiset(a);
      }
      var j :| 0 <= j < |b| && b[j] == a[n];
      PermRemoveLast(a, b, j);
      SumByPerm(a[..n], b[..j] + b[j + 1..], f);
      SumByDropOne(b[..j], b[j], b[j + 1..], f);
    }
  }

  /** `Array.prototype.map`. */
  function Map<A, B>(xs: seq<A>, f: A -> B): (r: seq<B>)
    ensures |r| == |xs|
    ensures forall k :: 0 <= k < |xs| ==> r[k] == f(xs[k])
  {
    seq(|xs|, k requires 0 <= k < |xs| => f(xs[k]))
  }

  lemma MapConcat<A, B>(a: seq<A>, b: seq<A>, f: A -> B)
    ensures Map(a + b, f) == Map(a, f) + Map(b, f)
  {
  }

  /** Mapping sequences with equal multisets gives sequences with equal multisets. */
  lemma {:induction false} MapPerm<A, B>(a: seq<A>, b: seq<A>, f: A -> B)
    requires multiset(a) == multiset(b)
    ensures multiset(Map(a, f)) == multiset(Map(b, f))
    decreases |a|
  {
    if |a| == 0 {
      assert |b| == |multiset(b)|;
    } else {
      var n := |a| - 1;
      assert a[n] in multiset(b) by {
        assert a[n] in multiset(a);
      }
      var j :| 0 <= j < |b| && b[j] == a[n];
      PermRemoveLast(a, b, j);
      var a', x := a[..n], a[n];
      var b1, b2 := b[..j], b[j + 1..];
      MapPerm(a', b1 + b2, f);
      assert Map(a, f) == Map(a', f) + Map([x], f) by {
        assert a == a' + [x];
        MapConcat(a', [x], f);
      }
      assert Map(b, f) == Map(b1, f) + Map([x], f) + Map(b2, f) by {
        MapConcat(b1, [x], f);
        MapConcat(b1 + [x], b2, f);
      }
      MapConcat(b1, b2, f);
      calc {
        multiset(Map(a, f));
        multiset(Map(a', f)) + multiset(Map([x], f));
        multiset(Map(b1 + b2, f)) + multiset(Map([x], f));
        multiset(Map(b1, f)) + multiset(Map(b2, f)) + multiset(Map([x], f));
        multiset(Map(b, f));
      }
    }
  }

  /** `xs` can be obtained from `ys` by deleting elements (matched greedily from the front). */
  predicate IsSubsequence<T(==)>(xs: seq<T>, ys: seq<T>)
    decreases |ys|
  {
    |xs| == 0 ||
    (|ys| > 0 &&
     if xs[0] == ys[0] then IsSubsequence(xs[1..], ys[1..]) else IsSubsequence(xs, ys[1..]))
  }

  /** `Array.prototype.filter`: the elements satisfying `p`, in their original order. */
  function Filter<T(==)>(xs: seq<T>, p: T -> bool): (r: seq<T>)
    ensures |r| <= |xs|
    ensures forall k :: 0 <= k < |r| ==> r[k] in xs && p(r[k])
    ensures forall k :: 0 <= k < |xs| && p(xs[k]) ==> xs[k] in r
    ensures IsSubsequence(r, xs)
    decreases |xs|
  {
    if |xs| == 0 then []
    else
      var rest := Filter(xs[1..], p);
      assert forall k :: 0 <= k < |rest| ==> rest[k] in xs;
      assert forall k :: 1 <= k < |xs| ==> xs[k] == xs[1..][k - 1];
      if p(xs[0]) then
        assert ([xs[0]] + rest)[1..] == rest;
        [xs[0]] + rest
      else
        assert |rest| > 0 ==> rest[0] in rest;
        rest
  }

  lemma {:induction false} FilterConcat<T>(a: seq<T>, b: seq<T>, p: T -> bool)
    ensures Filter(a + b, p) == Filter(a, p) + Filter(b, p)
    decreases |a|
  {
    if |a| == 0 {
      assert a + b == b;
    } else {
      assert (a + b)[0] == a[0];
      assert (a + b)[1..] == a[1..] + b;
      FilterConcat(a[1..], b, p);
    }
  }

  lemma {:induction false} FilterAll<T>(xs: seq<T>, p: T -> bool)
    requires forall k :: 0 <= k < |xs| ==> p(xs[k])
    ensures Filter(xs, p) == xs
    decreases |xs|
  {
    if |xs| > 0 {
      assert forall k :: 0 <= k < |xs| - 1 ==> xs[1..][k] == xs[k + 1];
      FilterAll(xs[1..], p);
    }
  }

  lemma FilterNone<T>(xs: seq<T>, p: T -> bool)
    requires forall k :: 0 <= k < |xs| ==> !p(xs[k])
    ensures Filter(xs, p) == []
  {
    var r := Filter(xs, p);
    if |r| > 0 {
      assert false;
    }
  }

  /** An element of a non-empty sequence is in the part before the last element or is the
      last element. */
  lemma MemberOfLast<T>(xs: seq<T>)
    requires |xs| > 0
    ensures forall x :: x in xs <==> x in xs[..|xs| - 1] || x == xs[|xs| - 1]
  {
    assert xs == xs[..|xs| - 1] + [xs[|xs| - 1]];
  }

  /** `rel` holds of every pair of elements taken in sequence order. */
  predicate Pairwise<T>(xs: seq<T>, rel: (T, T) -> bool) {
    forall i, j :: 0 <= i < j < |xs| ==> rel(xs[i], xs[j])
  }

  /** Filtering keeps a pairwise relation: it only deletes elements. */
  lemma {:induction false} FilterKeepsPairwise<T>(xs: seq<T>, p: T -> bool, rel: (T, T) -> bool)
    requires Pairwise(xs, rel)
    ensures Pairwise(Filter(xs, p), rel)
    decreases |xs|
  {
    if |xs| > 0 {
      var tail := xs[1..];
      PairwiseTail(xs, rel);
      FilterKeepsPairwise(tail, p, rel);
      if p(xs[0]) {
        RelatedToFilter(xs[0], tail, p, rel);
        PairwiseCons(xs[0], Filter(tail, p), rel);
        assert Filter(xs, p) == [xs[0]] + Filter(tail, p);
      } else {
        assert Filter(xs, p) == Filter(tail, p);
      }
    }
  }

  lemma PairwiseTail<T>(xs: seq<T>, rel: (T, T) -> bool)
    requires Pairwise(xs, rel) && |xs| > 0
    ensures Pairwise(xs[1..], rel)
    ensures forall k :: 0 <= k < |xs[1..]| ==> rel(xs[0], xs[1..][k])
  {
    var tail := xs[1..];
    assert forall k :: 0 <= k < |tail| ==> tail[k] == xs[k + 1];
  }

  lemma RelatedToFilter<T>(x: T, xs: seq<T>, p: T -> bool, rel: (T, T) -> bool)
    requires forall k :: 0 <= k < |xs| ==> rel(x, xs[k])
    ensures forall k :: 0 <= k < |Filter(xs, p)| ==> rel(x, Filter(xs, p)[k])
  {
    var r := Filter(xs, p);
    forall k | 0 <= k < |r| ensures rel(x, r[k]) {
      var m :| 0 <= m < |xs| && xs[m] == r[k];
    }
  }

  lemma PairwiseCons<T>(x: T, xs: seq<T>, rel: (T, T) -> bool)
    requires Pairwise(xs, rel)
    requires forall k :: 0 <= k < |xs| ==> rel(x, xs[k])
    ensures Pairwise([x] + xs, rel)
  {
    var ys := [x] + xs;
    assert forall k :: 1 <= k < |ys| ==> ys[k] == xs[k - 1];
  }

  lemma FilterSingleton<T>(x: T, p: T -> bool)
    ensures Filter([x], p) == if p(x) then [x] else []
  {
    assert [x][1..] == [];
  }

  /** Filtering out the one element that fails `p` between two runs that pass it. */
  lemma FilterDropOne<T>(a: seq<T>, x: T, b: seq<T>, p: T -> bool)
    requires forall k :: 0 <= k < |a| ==> p(a[k])
    requires !p(x)
    requires forall k :: 0 <= k < |b| ==> p(b[k])
    ensures Filter(a + [x] + b, p) == a + b
  {
    var ax := a + [x];
    FilterAll(a, p);
    FilterNone([x], p);
    FilterConcat(a, [x], p);
    assert Filter(ax, p) == a by {
      assert Filter(ax, p) == a + [];
    }
    FilterAll(b, p);
    FilterConcat(ax, b, p);
  }

  /** Two predicates that agree on every element filter alike. */
  lemma {:induction false} FilterSameOn<T>(xs: seq<T>, p: T -> bool, q: T -> bool)
    requires forall k :: 0 <= k < |xs| ==> p(xs[k]) == q(xs[k])
    ensures Filter(xs, p) == Filter(xs, q)
    decreases |xs|
  {
    if |xs| > 0 {
      assert forall k :: 0 <= k < |xs| - 1 ==> xs[1..][k] == xs[k + 1];
      FilterSameOn(xs[1..], p, q);
    }
  }

  /** Filtering by `q` after `p` is filtering by `q` alone when `q` implies `p`. */
  lemma {:induction false} FilterOfFilter<T>(xs: seq<T>, p: T -> bool, q: T -> bool)
    requires forall x :: q(x) ==> p(x)
    ensures Filter(Filter(xs, p), q) == Filter(xs, q)
    decreases |xs|
  {
    if |xs| > 0 {
      FilterOfFilter(xs[1..], p, q);
      if p(xs[0]) {
        var rest := Filter(xs[1..], p);
        assert ([xs[0]] + rest)[0] == xs[0];
        assert ([xs[0]] + rest)[1..] == rest;
      }
    }
  }

  /** A predicate and its negation split a sequence's length. */
  lemma {:induction false} FilterSplitCount<T>(xs: seq<T>, p: T -> bool, q: T -> bool)
    requires forall x :: q(x) == !p(x)
    ensures |Filter(xs, p)| + |Filter(xs, q)| == |xs|
    decreases |xs|
  {
    if |xs| > 0 {
      FilterSplitCount(xs[1..], p, q);
    }
  }

  predicate Distinct<T(==)>(xs: seq<T>) {
    forall i, j :: 0 <= i < j < |xs| ==> xs[i] != xs[j]
  }

  /** The distinct elements of `xs` in order of first appearance, as `[...new Set(xs)]` gives them. */
  function Dedup<T(==)>(xs: seq<T>): (r: seq<T>)
    ensures Distinct(r)
    ensures forall k :: 0 <= k < |r| ==> r[k] in xs
    ensures forall k :: 0 <= k < |xs| ==> xs[k] in r
    decreases |xs|
  {
    if |xs| == 0 then []
    else
      var d := Dedup(xs[..|xs| - 1]);
      var x := xs[|xs| - 1];
      assert xs == xs[..|xs| - 1] + [x];
      if x in d then d else d + [x]
  }

  /** The position of the first occurrence of `x` in `xs`. */
  function FirstIndex<T(==)>(xs: seq<T>, x: T): (i: int)
    requires x in xs
    ensures 0 <= i < |xs| && xs[i] == x
    ensures forall k :: 0 <= k < i ==> xs[k] != x
  {
    if xs[0] == x then 0 else 1 + FirstIndex(xs[1..], x)
  }

  /** A first occurrence found in a prefix stays the first occurrence. */
  lemma {:induction false} FirstIndexPrefix<T>(xs: seq<T>, n: int, x: T)
    requires 0 <= n <= |xs| && x in xs[..n]
    ensures FirstIndex(xs, x) == FirstIndex(xs[..n], x)
    decreases n
  {
    assert xs[..n][0] == xs[0];
    if xs[0] != x {
      assert x in xs[1..][..n - 1] by {
        assert xs[1..][..n - 1] == xs[..n][1..];
      }
      FirstIndexPrefix(xs[1..], n - 1, x);
      assert xs[1..][..n - 1] == xs[..n][1..];
    }
  }

  lemma FirstIndexAppend<T>(p: seq<T>, x: T, y: T)
    requires y in p
    ensures FirstIndex(p + [x], y) == FirstIndex(p, y) < |p|
  {
    assert (p + [x])[..|p|] == p;
    FirstIndexPrefix(p + [x], |p|, y);
  }

  lemma FirstIndexLast<T>(p: seq<T>, x: T)
    requires x !in p
    ensures FirstIndex(p + [x], x) == |p|
  {
  }

  /** `Dedup` lists the elements in the order of their first appearance. */
  lemma {:induction false} DedupFirstAppearance<T>(xs: seq<T>)
    ensures var r := Dedup(xs);
      forall i, j :: 0 <= i < j < |r| ==> FirstIndex(xs, r[i]) < FirstIndex(xs, r[j])
    decreases |xs|
  {
    if |xs| > 0 {
      var n := |xs| - 1;
      DedupFirstAppearance(xs[..n]);
      assert xs == xs[..n] + [xs[n]];
      DedupStep(xs[..n], xs[n]);
    }
  }

  /** One step of `Dedup`: an order by first appearance in `p` carries over to `p + [x]`. */
  lemma DedupStep<T>(p: seq<T>, x: T)
    requires forall i, j :: 0 <= i < j < |Dedup(p)| ==> FirstIndex(p, Dedup(p)[i]) < FirstIndex(p, Dedup(p)[j])
    ensures var r := Dedup(p + [x]);
      forall i, j :: 0 <= i < j < |r| ==> FirstIndex(p + [x], r[i]) < FirstIndex(p + [x], r[j])
  {
    var q := p + [x];
    var d := Dedup(p);
    var r := Dedup(q);
    assert q[..|q| - 1] == p;
    assert r == if x in d then d else d + [x];
    forall i, j | 0 <= i < j < |r| ensures FirstIndex(q, r[i]) < FirstIndex(q, r[j]) {
      assert r[i] == d[i];
      FirstIndexAppend(p, x, d[i]);
      if j < |d| {
        assert r[j] == d[j];
        FirstIndexAppend(p, x, d[j]);
      } else {
        assert r[j] == x && x !in p;
        FirstIndexLast(p, x);
      }
    }
  }

  /** A value put in front of a duplicate-free sequence keeps it duplicate-free iff it is new. */
  lemma PrependDistinct<T>(x: T, d: seq<T>)
    requires Distinct(d)
    ensures Distinct([x] + d) <==> x !in d
  {
    var r := [x] + d;
    if x in d {
      var j :| 0 <= j < |d| && d[j] == x;
      assert r[0] == r[j + 1];
    } else {
      forall i, j | 0 <= i < j < |r| ensures r[i] != r[j] {
        assert r[j] == d[j - 1];
        if i > 0 {
          assert r[i] == d[i - 1];
        }
      }
    }
  }

  /** A value put in front of `Dedup(xs)`: what follows it are the distinct elements of `xs`
      in the order of their first appearance. */
  lemma PrependDedup<T>(x: T, xs: seq<T>)
    ensures var r := [x] + Dedup(xs);
      && r[1..] == Dedup(xs)
      && (forall k :: 1 <= k < |r| ==> r[k] in xs)
      && (forall k :: 0 <= k < |xs| ==> xs[k] in r[1..])
      && (forall i, j :: 1 <= i < j < |r| ==> FirstIndex(xs, r[i]) < FirstIndex(xs, r[j]))
  {
    var d := Dedup(xs);
    var r := [x] + d;
    assert r[1..] == d;
    assert forall k :: 1 <= k < |r| ==> r[k] == d[k - 1];
    DedupFirstAppearance(xs);
  }

  /** Two maps with the same keys and the same value at every key are equal. */
  lemma MapExt<K, V>(a: map<K, V>, b: map<K, V>)
    requires a.Keys == b.Keys
    requires forall k :: k in a ==> a[k] == b[k]
    ensures a == b
  {
  }
}
