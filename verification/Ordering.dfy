/** Sorting by strings. */
module Ordering {
  import Text
  import Sorting

  /** Order by the string that a function gives each element. */
  function KeyOrder<T(!new)>(key: T -> string): (T, T) -> bool {
    (a: T, b: T) => Text.Less(key(a), key(b))
  }

  lemma KeyOrderIsWeakOrder<T(!new)>(key: T -> string)
    ensures Sorting.WeakOrder(KeyOrder(key))
  {
    var less := KeyOrder(key);
    forall x, y ensures less(x, y) ==> !less(y, x) {
      Text.LessAsymmetric(key(x), key(y));
    }
    forall x, y, z | !less(y, x) && !less(z, y) ensures !less(z, x) {
      Text.LessTransitive(key(x), key(y), key(z));
    }
  }

  /** Order by a string first and by another order where the strings are equal. */
  function ThenBy<T(!new)>(key: T -> string, next: (T, T) -> bool): (T, T) -> bool {
    (a: T, b: T) => if key(a) == key(b) then next(a, b) else Text.Less(key(a), key(b))
  }

  lemma ThenByIsWeakOrder<T(!new)>(key: T -> string, next: (T, T) -> bool)
    requires Sorting.WeakOrder(next)
    ensures Sorting.WeakOrder(ThenBy(key, next))
  {
    var less := ThenBy(key, next);
    forall x, y ensures less(x, y) ==> !less(y, x) {
      Text.LessAsymmetric(key(x), key(y));
    }
    forall x, y, z | !less(y, x) && !less(z, y) ensures !less(z, x) {
      KeysInOrder(key(x), key(y), key(z));
    }
  }

  /** What follows does not come first by its string, nor by the other order among equal strings. */
  lemma ThenByMeaning<T(!new)>(key: T -> string, next: (T, T) -> bool, a: T, b: T)
    requires !ThenBy(key, next)(b, a)
    ensures !Text.Less(key(b), key(a))
    ensures key(a) == key(b) ==> !next(b, a)
  {
    Text.LessAsymmetric(key(a), key(b));
  }

  lemma SortedByKey<T(!new)>(xs: seq<T>, key: T -> string)
    requires Sorting.SortedBy(xs, KeyOrder(key))
    ensures forall i, j | 0 <= i < j < |xs| :: !Text.Less(key(xs[j]), key(xs[i]))
  {
    forall i, j | 0 <= i < j < |xs| ensures !Text.Less(key(xs[j]), key(xs[i])) {
      assert !KeyOrder(key)(xs[j], xs[i]);
    }
  }

  lemma SortedByTwoKeys<T(!new)>(xs: seq<T>, first: T -> string, second: T -> string)
    requires Sorting.SortedBy(xs, ThenBy(first, KeyOrder(second)))
    ensures forall i, j | 0 <= i < j < |xs| :: !Text.Less(first(xs[j]), first(xs[i]))
    ensures forall i, j | 0 <= i < j < |xs| && first(xs[i]) == first(xs[j]) :: !Text.Less(second(xs[j]), second(xs[i]))
  {
    forall i, j | 0 <= i < j < |xs|
      ensures !Text.Less(first(xs[j]), first(xs[i]))
      ensures first(xs[i]) == first(xs[j]) ==> !Text.Less(second(xs[j]), second(xs[i]))
    {
      ThenByMeaning(first, KeyOrder(second), xs[i], xs[j]);
      assert first(xs[i]) == first(xs[j]) ==> !KeyOrder(second)(xs[j], xs[i]);
    }
  }

  lemma KeysInOrder(x: string, y: string, z: string)
    ensures (x == y || Text.Less(x, y)) && (y == z || Text.Less(y, z)) ==> x == z || Text.Less(x, z)
    ensures (x == y || Text.Less(x, y)) && (y == z || Text.Less(y, z)) && x == z ==> x == y
    ensures x == y || Text.Less(x, y) || Text.Less(y, x)
    ensures y == z || Text.Less(y, z) || Text.Less(z, y)
    ensures Text.Less(x, z) ==> !Text.Less(z, x)
    ensures !Text.Less(z, z)
  {
    Text.LessTotal(x, y);
    Text.LessTotal(y, z);
    Text.LessAsymmetric(x, y);
    Text.LessAsymmetric(y, z);
    Text.LessAsymmetric(x, z);
    Text.LessAsymmetric(z, x);
    if !Text.Less(y, x) && !Text.Less(z, y) {
      Text.LessTransitive(x, y, z);
    }
  }

  function Self(s: string): string {
    s
  }

  /** sort.Strings */
  function StringOrder(): (string, string) -> bool {
    KeyOrder(Self)
  }

  /** Strictly increasing, so without repetition. */
  ghost predicate Increasing(xs: seq<string>) {
    forall i, j | 0 <= i < j < |xs| :: Text.Less(xs[i], xs[j])
  }

  /** The keys of a map, collected in some order and put through sort.Strings. */
  method SortedKeys(keys: set<string>) returns (sorted: seq<string>)
    ensures Increasing(sorted)
    ensures forall x :: x in sorted <==> x in keys
  {
    var left, unsorted := keys, [];
    while left != {}
      invariant left <= keys
      invariant forall x :: x in unsorted <==> x in keys - left
      invariant forall i, j | 0 <= i < j < |unsorted| :: unsorted[i] != unsorted[j]
      decreases left
    {
      var x :| x in left;
      assert x !in unsorted;
      left := left - {x};
      unsorted := unsorted + [x];
    }
    KeyOrderIsWeakOrder(Self);
    sorted := Sorting.Sort(unsorted, StringOrder());
    Sorting.SameElements(sorted, unsorted);
    Sorting.DistinctPermutation(unsorted, sorted);
    SortedDistinctIsIncreasing(sorted);
  }

  lemma SortedDistinctIsIncreasing(xs: seq<string>)
    requires Sorting.SortedBy(xs, StringOrder())
    requires forall i, j | 0 <= i < j < |xs| :: xs[i] != xs[j]
    ensures Increasing(xs)
  {
    forall i, j | 0 <= i < j < |xs| ensures Text.Less(xs[i], xs[j]) {
      assert !StringOrder()(xs[j], xs[i]);
      assert !Text.Less(Self(xs[j]), Self(xs[i]));
      Text.LessTotal(xs[i], xs[j]);
    }
  }

  lemma IncreasingBefore(xs: seq<string>, i: nat, x: string)
    requires Increasing(xs) && i < |xs| && x in xs && Text.Less(x, xs[i])
    ensures x in xs[..i]
  {
    var k :| 0 <= k < |xs| && xs[k] == x;
    Text.LessAsymmetric(x, xs[i]);
    assert xs[..i][k] == x;
  }

  lemma IncreasingIsSorted(xs: seq<string>)
    requires Increasing(xs)
    ensures forall i, j | 0 <= i < j < |xs| :: xs[i] != xs[j]
    ensures Sorting.SortedBy(xs, StringOrder()) && Sorting.Decided(xs, StringOrder())
  {
    forall i, j | 0 <= i < j < |xs| ensures xs[i] != xs[j] && !StringOrder()(xs[j], xs[i]) {
      Text.LessAsymmetric(xs[i], xs[j]);
      assert !Text.Less(Self(xs[j]), Self(xs[i]));
    }
    forall i, j | 0 <= i < |xs| && 0 <= j < |xs|
      ensures xs[i] == xs[j] || StringOrder()(xs[i], xs[j]) || StringOrder()(xs[j], xs[i])
    {
      Text.LessTotal(Self(xs[i]), Self(xs[j]));
    }
  }

  /** A set of strings has one increasing enumeration. */
  lemma IncreasingUnique(a: seq<string>, b: seq<string>)
    requires Increasing(a) && Increasing(b) && forall x :: x in a <==> x in b
    ensures a == b
  {
    IncreasingIsSorted(a);
    IncreasingIsSorted(b);
    Sorting.DistinctMultiplicity(a);
    Sorting.DistinctMultiplicity(b);
    forall x ensures multiset(a)[x] == multiset(b)[x] {
      assert x in multiset(a) <==> x in a;
      assert x in multiset(b) <==> x in b;
    }
    assert multiset(a) == multiset(b);
    Sorting.SortedUnique(a, b, StringOrder());
  }
}
