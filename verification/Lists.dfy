/** Loops that keep some elements of a sequence or chain sequences together, as functions. */
module Lists {
  import Sorting

  datatype Option<+T> = None | Some(value: T)

  datatype Result<+T> = Ok(value: T) | Err(message: string)

  /** f of every element that f keeps, in order. */
  function FilterMap<T, U>(xs: seq<T>, f: T -> Option<U>): seq<U> {
    if xs == [] then [] else
      var last := f(xs[|xs| - 1]);
      FilterMap(xs[..|xs| - 1], f) + (if last.Some? then [last.value] else [])
  }

  /** The sequences f gives, chained in order. */
  function FlatMap<T, U>(xs: seq<T>, f: T -> seq<U>): seq<U> {
    if xs == [] then [] else FlatMap(xs[..|xs| - 1], f) + f(xs[|xs| - 1])
  }

  lemma FilterMapStep<T, U>(xs: seq<T>, i: nat, f: T -> Option<U>)
    requires i < |xs|
    ensures FilterMap(xs[..i + 1], f) == FilterMap(xs[..i], f) + (if f(xs[i]).Some? then [f(xs[i]).value] else [])
  {
    assert xs[..i + 1][..i] == xs[..i];
  }

  lemma FlatMapStep<T, U>(xs: seq<T>, i: nat, f: T -> seq<U>)
    requires i < |xs|
    ensures FlatMap(xs[..i + 1], f) == FlatMap(xs[..i], f) + f(xs[i])
  {
    assert xs[..i + 1][..i] == xs[..i];
  }

  /** The loop that appends them one after the other. */
  method Flatten<T, U>(xs: seq<T>, f: T -> seq<U>) returns (ys: seq<U>)
    ensures ys == FlatMap(xs, f)
  {
    ys := [];
    for i := 0 to |xs|
      invariant ys == FlatMap(xs[..i], f)
    {
      FlatMapStep(xs, i, f);
      ys := ys + f(xs[i]);
    }
    assert xs[..|xs|] == xs;
  }

  lemma {:induction false} FilterMapAppend<T, U>(xs: seq<T>, ys: seq<T>, f: T -> Option<U>)
    ensures FilterMap(xs + ys, f) == FilterMap(xs, f) + FilterMap(ys, f)
  {
    if ys == [] {
      assert xs + ys == xs;
    } else {
      FilterMapAppend(xs, ys[..|ys| - 1], f);
      assert (xs + ys)[..|xs + ys| - 1] == xs + ys[..|ys| - 1];
    }
  }

  /** Strictly increasing positions below a bound. */
  ghost predicate Positions(at: seq<nat>, bound: nat) {
    && (forall i, j | 0 <= i < j < |at| :: at[i] < at[j])
    && (forall i | 0 <= i < |at| :: at[i] < bound)
  }

  /** A filtered sequence comes from exactly the positions that the filter keeps. */
  lemma {:induction false} FilterMapPositions<T, U>(xs: seq<T>, f: T -> Option<U>) returns (at: seq<nat>)
    ensures Positions(at, |xs|) && |at| == |FilterMap(xs, f)|
    ensures forall j | 0 <= j < |xs| :: j in at <==> f(xs[j]).Some?
    ensures forall i | 0 <= i < |at| :: f(xs[at[i]]) == Some(FilterMap(xs, f)[i])
  {
    at := [];
    if xs != [] {
      var n := |xs| - 1;
      var front := FilterMapPositions(xs[..n], f);
      if f(xs[n]).Some? {
        at := front + [n];
        assert at[..|front|] == front;
      } else {
        at := front;
      }
      forall j | 0 <= j < |xs| ensures j in at <==> f(xs[j]).Some? {
        if j < n {
          assert xs[..n][j] == xs[j];
          assert j in front <==> f(xs[..n][j]).Some?;
        }
      }
      forall i | 0 <= i < |at| ensures f(xs[at[i]]) == Some(FilterMap(xs, f)[i]) {
        if i < |front| {
          assert xs[..n][front[i]] == xs[front[i]];
        }
      }
    }
  }

  lemma {:induction false} FilterMapMembers<T, U>(xs: seq<T>, f: T -> Option<U>)
    ensures forall y :: y in FilterMap(xs, f) <==> exists i :: 0 <= i < |xs| && f(xs[i]) == Some(y)
    ensures FilterMap(xs, f) == [] <==> forall i | 0 <= i < |xs| :: f(xs[i]).None?
  {
    var at := FilterMapPositions(xs, f);
    var ys := FilterMap(xs, f);
    forall y ensures y in ys <==> exists i :: 0 <= i < |xs| && f(xs[i]) == Some(y) {
      if y in ys {
        var k :| 0 <= k < |ys| && ys[k] == y;
        assert f(xs[at[k]]) == Some(y);
      }
      if i :| 0 <= i < |xs| && f(xs[i]) == Some(y) {
        assert i in at;
        var k :| 0 <= k < |at| && at[k] == i;
        assert ys[k] == y;
      }
    }
    if ys == [] {
      forall i | 0 <= i < |xs| ensures f(xs[i]).None? {
        assert i !in at;
      }
    } else {
      assert f(xs[at[0]]).Some?;
    }
  }

  lemma {:induction false} FlatMapMembers<T, U>(xs: seq<T>, f: T -> seq<U>)
    ensures forall y :: y in FlatMap(xs, f) <==> exists i :: 0 <= i < |xs| && y in f(xs[i])
  {
    if xs != [] {
      var n := |xs| - 1;
      FlatMapMembers(xs[..n], f);
      forall y ensures y in FlatMap(xs, f) <==> exists i :: 0 <= i < |xs| && y in f(xs[i]) {
        if y in FlatMap(xs[..n], f) {
          var i :| 0 <= i < |xs[..n]| && y in f(xs[..n][i]);
          assert y in f(xs[i]);
        }
        if i :| 0 <= i < |xs| && y in f(xs[i]) {
          assert i == n || y in f(xs[..n][i]);
        }
      }
    }
  }

  function Map<T, U>(xs: seq<T>, f: T -> U): (ys: seq<U>)
    ensures |ys| == |xs| && forall i | 0 <= i < |xs| :: ys[i] == f(xs[i])
  {
    seq(|xs|, i requires 0 <= i < |xs| => f(xs[i]))
  }

  lemma {:induction false} FlatMapOfMap<T, U, V>(xs: seq<T>, f: T -> U, g: U -> seq<V>, h: T -> seq<V>)
    requires forall x | x in xs :: g(f(x)) == h(x)
    ensures FlatMap(Map(xs, f), g) == FlatMap(xs, h)
  {
    if xs != [] {
      var n := |xs| - 1;
      FlatMapOfMap(xs[..n], f, g, h);
      assert Map(xs, f)[..n] == Map(xs[..n], f);
      assert xs[n] in xs;
    }
  }

  lemma MapAppend<T, U>(xs: seq<T>, ys: seq<T>, f: T -> U)
    ensures Map(xs + ys, f) == Map(xs, f) + Map(ys, f)
  {
  }

  /** A map that grows by one new key at a time holds every key with its value in the end. */
  lemma {:induction false} GrownMap<T, V>(xs: seq<T>, key: T -> string, value: T -> V, m: nat -> map<string, V>, n: nat)
    requires n <= |xs| && m(0) == map[]
    requires forall i, j | 0 <= i < j < |xs| :: key(xs[i]) != key(xs[j])
    requires forall k: nat | k < |xs| && key(xs[k]) !in m(k) :: m(k + 1) == m(k)[key(xs[k]) := value(xs[k])]
    ensures forall i | 0 <= i < n :: key(xs[i]) in m(n) && m(n)[key(xs[i])] == value(xs[i])
    ensures forall k | k in m(n) :: exists i :: 0 <= i < n && key(xs[i]) == k
  {
    if n > 0 {
      GrownMap(xs, key, value, m, n - 1);
      assert key(xs[n - 1]) !in m(n - 1);
      assert m(n - 1 + 1) == m(n - 1)[key(xs[n - 1]) := value(xs[n - 1])];
    }
  }

  /** The values that stand beside a key, added up. */
  function SumWhere(keys: seq<string>, values: seq<nat>, key: string): nat
    requires |keys| == |values|
  {
    if keys == [] then 0 else
      var n := |keys| - 1;
      SumWhere(keys[..n], values[..n], key) + (if keys[n] == key then values[n] else 0)
  }

  lemma {:induction false} SumWhereNone(keys: seq<string>, values: seq<nat>, key: string)
    requires |keys| == |values| && key !in keys
    ensures SumWhere(keys, values, key) == 0
  {
    if keys != [] {
      SumWhereNone(keys[..|keys| - 1], values[..|keys| - 1], key);
    }
  }

  lemma {:induction false} SumWhereAt(keys: seq<string>, values: seq<nat>, i: nat)
    requires |keys| == |values| && i < |keys|
    requires forall j, k | 0 <= j < k < |keys| :: keys[j] != keys[k]
    ensures SumWhere(keys, values, keys[i]) == values[i]
  {
    var n := |keys| - 1;
    if i == n {
      SumWhereNone(keys[..n], values[..n], keys[n]);
    } else {
      SumWhereAt(keys[..n], values[..n], i);
    }
  }

  lemma Cancel<T>(s: multiset<T>, t: multiset<T>, x: T)
    ensures s + multiset{x} == t + multiset{x} <==> s == t
  {
    assert (s + multiset{x}) - multiset{x} == s && (t + multiset{x}) - multiset{x} == t;
  }

  lemma MapDropAt<T, U>(xs: seq<T>, k: nat, f: T -> U)
    requires k < |xs|
    ensures var rest := xs[..k] + xs[k + 1..];
      && multiset(xs) == multiset(rest) + multiset{xs[k]}
      && multiset(Map(xs, f)) == multiset(Map(rest, f)) + multiset{f(xs[k])}
      && forall x | x in rest :: x in xs
  {
    var rest := xs[..k] + xs[k + 1..];
    Sorting.DropAt(xs, k);
    assert xs[k] in multiset(xs);
    assert multiset(Map(xs, f)) == multiset(Map(rest, f)) + multiset{f(xs[k])} by {
      Sorting.DropAt(Map(xs, f), k);
      assert Map(rest, f) == Map(xs, f)[..k] + Map(xs, f)[k + 1..];
      assert Map(xs, f)[k] in multiset(Map(xs, f));
    }
  }

  /** Rearranging a sequence rearranges its image. */
  lemma {:induction false} MapKeepsMultiset<T, U>(xs: seq<T>, ys: seq<T>, f: T -> U)
    requires multiset(xs) == multiset(ys)
    ensures multiset(Map(xs, f)) == multiset(Map(ys, f))
  {
    Sorting.SameElements(xs, ys);
    if xs != [] {
      assert xs[0] in ys;
      var k :| 0 <= k < |ys| && ys[k] == xs[0];
      MapDropAt(xs, 0, f);
      MapDropAt(ys, k, f);
      var restX, restY := xs[..0] + xs[0 + 1..], ys[..k] + ys[k + 1..];
      Cancel(multiset(restX), multiset(restY), xs[0]);
      MapKeepsMultiset(restX, restY, f);
    }
  }

  /** An element occurs in an injective image as often as its origin does. */
  lemma {:induction false} CountOfImage<T, U>(xs: seq<T>, f: T -> U, x: T)
    requires forall y | y in xs && f(y) == f(x) :: y == x
    ensures multiset(Map(xs, f))[f(x)] == multiset(xs)[x]
  {
    if xs != [] {
      var n := |xs| - 1;
      CountOfImage(xs[..n], f, x);
      assert xs == xs[..n] + [xs[n]] && Map(xs, f) == Map(xs[..n], f) + [f(xs[n])];
      assert xs[n] in xs;
    }
  }

  /** An injective image determines the multiset it is the image of. */
  lemma {:induction false} InjectiveMapKeepsMultisetsApart<T, U>(xs: seq<T>, ys: seq<T>, f: T -> U)
    requires forall x, y | x in xs && y in ys && f(x) == f(y) :: x == y
    requires multiset(Map(xs, f)) == multiset(Map(ys, f))
    ensures multiset(xs) == multiset(ys)
  {
    var image, other := Map(xs, f), Map(ys, f);
    Sorting.SameElements(image, other);
    if xs != [] {
      assert image[0] in multiset(image);
      assert image[0] in multiset(other);
      assert image[0] in other;
      var k :| 0 <= k < |ys| && other[k] == image[0];
      assert xs[0] in xs && ys[k] in ys;
      MapDropAt(xs, 0, f);
      MapDropAt(ys, k, f);
      var restX, restY := xs[..0] + xs[0 + 1..], ys[..k] + ys[k + 1..];
      Cancel(multiset(Map(restX, f)), multiset(Map(restY, f)), f(xs[0]));
      InjectiveMapKeepsMultisetsApart(restX, restY, f);
    }
  }
}
