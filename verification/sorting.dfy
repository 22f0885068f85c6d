/** `Array.prototype.sort` with a comparison: stable, and a rearrangement. */
module Sorting {

  ghost predicate Total<T(!new)>(notAfter: (T, T) -> bool) {
    forall a, b :: notAfter(a, b) || notAfter(b, a)
  }

  ghost predicate Transitive<T(!new)>(notAfter: (T, T) -> bool) {
    forall a, b, c :: notAfter(a, b) && notAfter(b, c) ==> notAfter(a, c)
  }

  ghost predicate Ordered<T>(xs: seq<T>, notAfter: (T, T) -> bool) {
    forall i, j :: 0 <= i < j < |xs| ==> notAfter(xs[i], xs[j])
  }

  function InsertBy<T>(sorted: seq<T>, x: T, notAfter: (T, T) -> bool): (all: seq<T>)
    ensures multiset(all) == multiset(sorted) + multiset{x}
    ensures |all| == |sorted| + 1
  {
    if sorted == [] then [x]
    else if notAfter(x, sorted[0]) then [x] + sorted
    else
      assert sorted == [sorted[0]] + sorted[1..];
      [sorted[0]] + InsertBy(sorted[1..], x, notAfter)
  }

  function SortBy<T>(xs: seq<T>, notAfter: (T, T) -> bool): (sorted: seq<T>)
    ensures multiset(sorted) == multiset(xs) && |sorted| == |xs|
  {
    if xs == [] then []
    else
      assert xs == [xs[0]] + xs[1..];
      InsertBy(SortBy(xs[1..], notAfter), xs[0], notAfter)
  }

  lemma SameElements<T>(xs: seq<T>, notAfter: (T, T) -> bool)
    ensures forall x :: x in SortBy(xs, notAfter) <==> x in xs
  {
    forall x
      ensures x in SortBy(xs, notAfter) <==> x in xs
    {
      assert x in SortBy(xs, notAfter) <==> x in multiset(SortBy(xs, notAfter));
      assert x in xs <==> x in multiset(xs);
    }
  }

  lemma {:induction false} InsertKeepsOrder<T(!new)>(sorted: seq<T>, x: T, notAfter: (T, T) -> bool)
    requires Total(notAfter) && Transitive(notAfter) && Ordered(sorted, notAfter)
    ensures Ordered(InsertBy(sorted, x, notAfter), notAfter)
  {
    if sorted != [] {
      if notAfter(x, sorted[0]) {
        assert forall i :: 0 <= i < |sorted| ==> notAfter(x, sorted[i]);
      } else {
        var rest := InsertBy(sorted[1..], x, notAfter);
        InsertKeepsOrder(sorted[1..], x, notAfter);
        forall i | 0 <= i < |rest|
          ensures notAfter(sorted[0], rest[i])
        {
          assert rest[i] in multiset(rest);
          assert rest[i] == x || rest[i] in sorted[1..];
        }
      }
    }
  }

  lemma {:induction false} SortIsOrdered<T(!new)>(xs: seq<T>, notAfter: (T, T) -> bool)
    requires Total(notAfter) && Transitive(notAfter)
    ensures Ordered(SortBy(xs, notAfter), notAfter)
  {
    if xs != [] {
      SortIsOrdered(xs[1..], notAfter);
      InsertKeepsOrder(SortBy(xs[1..], notAfter), xs[0], notAfter);
    }
  }

  // ----- the order on text -----

  /** `compareText(left, right) <= 0`: comparison by code unit. */
  predicate TextNotAfter(left: string, right: string) {
    left == "" || (right != "" && (left[0] < right[0] || (left[0] == right[0] && TextNotAfter(left[1..], right[1..]))))
  }

  lemma {:induction false} TextOrderIsTotal(a: string, b: string)
    ensures TextNotAfter(a, b) || TextNotAfter(b, a)
  {
    if a != "" && b != "" && a[0] == b[0] {
      TextOrderIsTotal(a[1..], b[1..]);
    }
  }

  lemma {:induction false} TextOrderIsTransitive(a: string, b: string, c: string)
    requires TextNotAfter(a, b) && TextNotAfter(b, c)
    ensures TextNotAfter(a, c)
  {
    if a != "" && a[0] == b[0] && b[0] == c[0] {
      TextOrderIsTransitive(a[1..], b[1..], c[1..]);
    }
  }

  lemma {:induction false} TextOrderIsAntisymmetric(a: string, b: string)
    requires TextNotAfter(a, b) && TextNotAfter(b, a)
    ensures a == b
  {
    if a != "" {
      TextOrderIsAntisymmetric(a[1..], b[1..]);
      assert a == [a[0]] + a[1..] && b == [b[0]] + b[1..];
    }
  }

  // ----- pairs of a rearrangement -----

  ghost predicate Pairwise<T>(xs: seq<T>, related: (T, T) -> bool) {
    forall i, j :: 0 <= i < j < |xs| ==> related(xs[i], xs[j])
  }

  /** Two different positions of `xs` hold `x` and `y`. */
  ghost predicate HoldsPair<T>(xs: seq<T>, x: T, y: T) {
    exists i, j :: 0 <= i < |xs| && 0 <= j < |xs| && i != j && xs[i] == x && xs[j] == y
  }

  lemma {:induction false} CountAt<T>(xs: seq<T>, i: nat)
    requires i < |xs|
    ensures multiset(xs) == multiset(xs[..i] + xs[i + 1..]) + multiset{xs[i]}
  {
    assert xs == xs[..i] + [xs[i]] + xs[i + 1..];
  }

  lemma PairIffCounted<T>(xs: seq<T>, x: T, y: T)
    ensures HoldsPair(xs, x, y) <==> multiset{x, y} <= multiset(xs)
  {
    if HoldsPair(xs, x, y) {
      var i, j :| 0 <= i < |xs| && 0 <= j < |xs| && i != j && xs[i] == x && xs[j] == y;
      CountAt(xs, i);
      OthersHold(xs, i, y);
      assert y in multiset(xs[..i] + xs[i + 1..]);
    }
    if multiset{x, y} <= multiset(xs) {
      assert x in multiset(xs);
      var i :| 0 <= i < |xs| && xs[i] == x;
      CountAt(xs, i);
      assert y in multiset(xs[..i] + xs[i + 1..]);
      OthersHold(xs, i, y);
    }
  }

  lemma OthersHold<T>(xs: seq<T>, i: nat, y: T)
    requires i < |xs|
    ensures y in xs[..i] + xs[i + 1..] <==> exists j :: 0 <= j < |xs| && j != i && xs[j] == y
  {
    var rest := xs[..i] + xs[i + 1..];
    if j :| 0 <= j < |xs| && j != i && xs[j] == y {
      assert rest[if j < i then j else j - 1] == y;
    }
    if k :| 0 <= k < |rest| && rest[k] == y {
      assert xs[if k < i then k else k + 1] == y;
    }
  }

  /** A symmetric relation holds between all pairs of a list or of none of its rearrangements. */
  lemma PairwiseIgnoresOrder<T(!new)>(xs: seq<T>, ys: seq<T>, related: (T, T) -> bool)
    requires multiset(xs) == multiset(ys) && forall a, b :: related(a, b) <==> related(b, a)
    ensures Pairwise(xs, related) <==> Pairwise(ys, related)
  {
    PairwiseCarries(xs, ys, related);
    PairwiseCarries(ys, xs, related);
  }

  lemma PairwiseCarries<T(!new)>(xs: seq<T>, ys: seq<T>, related: (T, T) -> bool)
    requires multiset(xs) == multiset(ys) && forall a, b :: related(a, b) <==> related(b, a)
    ensures Pairwise(xs, related) ==> Pairwise(ys, related)
  {
    if Pairwise(xs, related) {
      forall i, j | 0 <= i < j < |ys|
        ensures related(ys[i], ys[j])
      {
        assert HoldsPair(ys, ys[i], ys[j]);
        PairIffCounted(ys, ys[i], ys[j]);
        PairIffCounted(xs, ys[i], ys[j]);
        var a, b :| 0 <= a < |xs| && 0 <= b < |xs| && a != b && xs[a] == ys[i] && xs[b] == ys[j];
        assert related(xs[a], xs[b]) by {
          if b < a {
            assert related(xs[b], xs[a]);
          }
        }
      }
    }
  }
}
