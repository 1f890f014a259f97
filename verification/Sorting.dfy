/**
  `sort.Slice` as the program may rely on it: the result is a permutation in order and
  nothing more, because the sort is not stable.  Callers see only the contract of `Sort`.
 */
module Sorting {

  /** What sort.Slice asks of its comparison: a strict weak order. */
  ghost predicate WeakOrder<T(!new)>(less: (T, T) -> bool) {
    && (forall x, y :: less(x, y) ==> !less(y, x))
    && (forall x, y, z :: !less(y, x) && !less(z, y) ==> !less(z, x))
  }

  predicate SortedBy<T(!new)>(xs: seq<T>, less: (T, T) -> bool) {
    forall i, j | 0 <= i < j < |xs| :: !less(xs[j], xs[i])
  }

  lemma SameElements<T>(a: seq<T>, b: seq<T>)
    requires multiset(a) == multiset(b)
    ensures |a| == |b|
    ensures forall x :: x in a <==> x in b
  {
    assert |multiset(a)| == |a| && |multiset(b)| == |b|;
    forall x ensures x in a <==> x in b {
      assert x in a <==> x in multiset(a);
      assert x in b <==> x in multiset(b);
    }
  }

  lemma PrependLeast<T(!new)>(x: T, xs: seq<T>, less: (T, T) -> bool)
    requires SortedBy(xs, less) && forall y | y in xs :: !less(y, x)
    ensures SortedBy([x] + xs, less)
  {
    forall i, j | 0 <= i < j < |xs| + 1 ensures !less(([x] + xs)[j], ([x] + xs)[i]) {
      assert xs[j - 1] in xs;
    }
  }

  lemma HeadIsLeast<T(!new)>(xs: seq<T>, less: (T, T) -> bool)
    requires WeakOrder(less) && SortedBy(xs, less) && xs != []
    ensures forall y | y in xs :: !less(y, xs[0])
    ensures SortedBy(xs[1..], less)
    ensures multiset(xs) == multiset(xs[1..]) + multiset{xs[0]}
  {
    assert xs == [xs[0]] + xs[1..];
    assert !less(xs[0], xs[0]);
  }

  /** x put in front of the first element that it precedes. */
  function Insert<T(!new)>(xs: seq<T>, x: T, less: (T, T) -> bool): (ys: seq<T>)
    requires WeakOrder(less) && SortedBy(xs, less)
    ensures multiset(ys) == multiset(xs) + multiset{x}
    ensures SortedBy(ys, less)
    ensures forall y :: y in ys <==> y == x || y in xs
  {
    if xs == [] then [x]
    else
      HeadIsLeast(xs, less);
      assert forall y :: y in xs <==> y == xs[0] || y in xs[1..];
      if less(x, xs[0]) then
        PrependLeast(x, xs, less);
        [x] + xs
      else
        var tail := Insert(xs[1..], x, less);
        PrependLeast(xs[0], tail, less);
        [xs[0]] + tail
  }

  function Sorted<T(!new)>(xs: seq<T>, less: (T, T) -> bool): (ys: seq<T>)
    requires WeakOrder(less)
    ensures multiset(ys) == multiset(xs)
    ensures SortedBy(ys, less)
  {
    if xs == [] then [] else
      assert xs == xs[..|xs| - 1] + [xs[|xs| - 1]];
      Insert(Sorted(xs[..|xs| - 1], less), xs[|xs| - 1], less)
  }

  method Sort<T(!new)>(xs: seq<T>, less: (T, T) -> bool) returns (ys: seq<T>)
    requires WeakOrder(less)
    ensures multiset(ys) == multiset(xs)
    ensures SortedBy(ys, less)
  {
    ys := Sorted(xs, less);
  }

  lemma DropAt<T>(xs: seq<T>, k: nat)
    requires k < |xs|
    ensures multiset(xs[..k] + xs[k + 1..]) == multiset(xs) - multiset{xs[k]}
  {
    assert xs == xs[..k] + [xs[k]] + xs[k + 1..];
  }

  lemma DistinctPermutation<T>(xs: seq<T>, ys: seq<T>)
    requires multiset(xs) == multiset(ys)
    requires forall i, j | 0 <= i < j < |xs| :: xs[i] != xs[j]
    ensures forall i, j | 0 <= i < j < |ys| :: ys[i] != ys[j]
  {
    DistinctMultiplicity(xs);
    forall i, j | 0 <= i < j < |ys| ensures ys[i] != ys[j] {
      assert ys == ys[..j] + [ys[j]] + ys[j + 1..];
      assert ys[..j] == ys[..i] + [ys[i]] + ys[i + 1..j];
      assert multiset(ys)[ys[i]] >= if ys[i] == ys[j] then 2 else 1;
    }
  }

  lemma {:induction false} DistinctMultiplicity<T>(xs: seq<T>)
    requires forall i, j | 0 <= i < j < |xs| :: xs[i] != xs[j]
    ensures forall x :: multiset(xs)[x] <= 1
  {
    if xs != [] {
      var last := |xs| - 1;
      DistinctMultiplicity(xs[..last]);
      assert xs == xs[..last] + [xs[last]];
      assert xs[last] !in xs[..last];
    }
  }

  ghost predicate Decided<T(!new)>(xs: seq<T>, less: (T, T) -> bool) {
    forall i, j | 0 <= i < |xs| && 0 <= j < |xs| :: xs[i] == xs[j] || less(xs[i], xs[j]) || less(xs[j], xs[i])
  }

  lemma LeastIsFirst<T(!new)>(a: seq<T>, b: seq<T>, less: (T, T) -> bool)
    requires multiset(a) == multiset(b) && a != []
    requires SortedBy(a, less) && SortedBy(b, less) && Decided(a, less)
    ensures b != [] && a[0] == b[0]
  {
    SameElements(a, b);
    assert a[0] in b && b[0] in a;
    var i :| 0 <= i < |a| && a[i] == b[0];
    var j :| 0 <= j < |b| && b[j] == a[0];
    assert i == 0 || !less(a[i], a[0]);
    assert j == 0 || !less(b[j], b[0]);
  }

  lemma TailOrdered<T(!new)>(a: seq<T>, less: (T, T) -> bool)
    requires a != [] && SortedBy(a, less)
    ensures SortedBy(a[1..], less)
    ensures Decided(a, less) ==> Decided(a[1..], less)
  {
    assert forall i | 0 <= i < |a| - 1 :: a[1..][i] == a[i + 1];
  }

  lemma TailMultiset<T>(a: seq<T>)
    requires a != []
    ensures multiset(a[1..]) == multiset(a) - multiset{a[0]}
  {
    DropAt(a, 0);
    assert a[..0] + a[0 + 1..] == a[1..];
  }

  lemma HeadTail<T>(a: seq<T>, b: seq<T>)
    requires a != [] && b != [] && a[0] == b[0] && a[1..] == b[1..]
    ensures a == b
  {
    assert a == [a[0]] + a[1..] && b == [b[0]] + b[1..];
  }

  /** When the order decides every pair of distinct elements, a multiset has one sorted sequence. */
  lemma {:induction false} SortedUnique<T(!new)>(a: seq<T>, b: seq<T>, less: (T, T) -> bool)
    requires multiset(a) == multiset(b)
    requires SortedBy(a, less) && SortedBy(b, less) && Decided(a, less)
    ensures a == b
  {
    if a == [] {
      assert |multiset(b)| == |b|;
    } else {
      LeastIsFirst(a, b, less);
      TailOrdered(a, less);
      TailOrdered(b, less);
      TailMultiset(a);
      TailMultiset(b);
      SortedUnique(a[1..], b[1..], less);
      HeadTail(a, b);
    }
  }

  /** How many elements satisfy a predicate. */
  ghost function Count<T>(xs: seq<T>, p: T -> bool): nat {
    if xs == [] then 0 else Count(xs[..|xs| - 1], p) + (if p(xs[|xs| - 1]) then 1 else 0)
  }

  lemma {:induction false} CountAppend<T>(xs: seq<T>, ys: seq<T>, p: T -> bool)
    ensures Count(xs + ys, p) == Count(xs, p) + Count(ys, p)
  {
    if ys == [] {
      assert xs + ys == xs;
    } else {
      CountAppend(xs, ys[..|ys| - 1], p);
      assert (xs + ys)[..|xs + ys| - 1] == xs + ys[..|ys| - 1];
    }
  }

  lemma CountMiddle<T>(a: seq<T>, x: T, b: seq<T>, p: T -> bool)
    ensures Count(a + [x] + b, p) == Count(a + b, p) + (if p(x) then 1 else 0)
  {
    CountAppend(a + [x], b, p);
    CountAppend(a, b, p);
    assert (a + [x])[..|a|] == a;
  }

  lemma CountDropAt<T>(xs: seq<T>, k: nat, p: T -> bool)
    requires k < |xs|
    ensures Count(xs, p) == Count(xs[..k] + xs[k + 1..], p) + (if p(xs[k]) then 1 else 0)
  {
    var front, back := xs[..k], xs[k + 1..];
    var whole := front + [xs[k]] + back;
    assert whole == xs;
    CountMiddle(front, xs[k], back, p);
  }

  lemma {:induction false} CountPermutation<T>(xs: seq<T>, ys: seq<T>, p: T -> bool)
    requires multiset(xs) == multiset(ys)
    ensures Count(xs, p) == Count(ys, p)
  {
    SameElements(xs, ys);
    if xs != [] {
      var last := |xs| - 1;
      assert xs[last] in ys;
      var k :| 0 <= k < |ys| && ys[k] == xs[last];
      DropAt(xs, last);
      DropAt(ys, k);
      assert xs[..last] + xs[last + 1..] == xs[..last];
      CountPermutation(xs[..last], ys[..k] + ys[k + 1..], p);
      CountDropAt(ys, k, p);
    }
  }
}
