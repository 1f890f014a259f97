/**
  Strings as the program sees them: one char per byte, compared byte by byte.
  Besides the order, the module holds the splitting facts behind every encoding in
  the project that glues parts together with a separator, and decimal rendering.
 */
module Text {

  /** Go's `<` on strings and `bytes.Compare(a, b) < 0` on byte slices. */
  predicate Less(a: string, b: string) {
    b != [] && (a == [] || a[0] < b[0] || (a[0] == b[0] && Less(a[1..], b[1..])))
  }

  /** The texts agree up to k, where a ends or has the smaller byte. */
  predicate FirstDifference(a: string, b: string, k: nat) {
    k <= |a| && k < |b| && a[..k] == b[..k] && (k == |a| || a[k] < b[k])
  }

  /** One text is less than another if it is a proper prefix or smaller at the first difference. */
  lemma {:induction false} LessMeaning(a: string, b: string)
    ensures Less(a, b) <==> exists k: nat :: FirstDifference(a, b, k)
  {
    if a == [] || b == [] {
      assert b != [] ==> FirstDifference(a, b, 0);
    } else if a[0] != b[0] {
      assert a[0] < b[0] ==> FirstDifference(a, b, 0);
      assert forall k: nat | 0 < k <= |a| && k < |b| :: a[..k][0] != b[..k][0];
    } else {
      LessMeaning(a[1..], b[1..]);
      if k: nat :| FirstDifference(a[1..], b[1..], k) {
        assert a[..k + 1] == [a[0]] + a[1..][..k] && b[..k + 1] == [b[0]] + b[1..][..k];
        assert FirstDifference(a, b, k + 1);
      }
      if k: nat :| FirstDifference(a, b, k) {
        assert a[1..][..k - 1] == a[..k][1..] && b[1..][..k - 1] == b[..k][1..];
        assert FirstDifference(a[1..], b[1..], k - 1);
      }
    }
  }

  lemma {:induction false} LessAsymmetric(a: string, b: string)
    ensures Less(a, b) ==> !Less(b, a)
    ensures !Less(a, a)
  {
    if a != [] && b != [] {
      LessAsymmetric(a[1..], b[1..]);
    } else if a != [] {
      LessAsymmetric(a[1..], b);
    }
  }

  lemma {:induction false} LessTotal(a: string, b: string)
    ensures a == b || Less(a, b) || Less(b, a)
  {
    if a != [] && b != [] && a[0] == b[0] {
      LessTotal(a[1..], b[1..]);
      assert a == [a[0]] + a[1..] && b == [b[0]] + b[1..];
    }
  }

  lemma {:induction false} LessTransitive(a: string, b: string, c: string)
    requires !Less(b, a) && !Less(c, b)
    ensures !Less(c, a)
    ensures Less(a, b) || Less(b, c) ==> Less(a, c)
  {
    if a != [] && b != [] && c != [] {
      if a[0] == b[0] == c[0] {
        LessTransitive(a[1..], b[1..], c[1..]);
      }
    }
  }

  /** A prefix that ends before the first separator is determined by the whole string. */
  lemma {:induction false} SplitFirst(a: string, r: string, b: string, s: string, sep: char)
    requires sep !in a && sep !in b
    requires a + [sep] + r == b + [sep] + s
    ensures a == b && r == s
  {
    var whole := a + [sep] + r;
    assert whole == b + [sep] + s;
    assert whole[|a|] == sep && forall i | 0 <= i < |a| :: whole[i] == a[i] != sep;
    assert whole[|b|] == sep && forall i | 0 <= i < |b| :: whole[i] == b[i] != sep;
    assert |a| == |b|;
    assert a == whole[..|a|] && b == whole[..|b|];
    assert r == whole[|a| + 1..] && s == whole[|b| + 1..];
  }

  /** A suffix that starts after the last separator is determined by the whole string. */
  lemma {:induction false} SplitLast(a: string, r: string, b: string, s: string, sep: char)
    requires sep !in r && sep !in s
    requires a + [sep] + r == b + [sep] + s
    ensures a == b && r == s
  {
    var whole := a + [sep] + r;
    assert whole == b + [sep] + s;
    assert whole[|a|] == sep && forall i | |a| < i < |whole| :: whole[i] == r[i - |a| - 1] != sep;
    assert whole[|b|] == sep && forall i | |b| < i < |whole| :: whole[i] == s[i - |b| - 1] != sep;
    assert |a| == |b|;
    assert a == whole[..|a|] && b == whole[..|b|];
    assert r == whole[|a| + 1..] && s == whole[|b| + 1..];
  }

  /** Texts of equal length at the front of equal texts are equal, and so is what follows them. */
  lemma Cut(a: string, r: string, b: string, s: string)
    requires |a| == |b| && a + r == b + s
    ensures a == b && r == s
  {
    assert a == (a + r)[..|a|] && b == (b + s)[..|b|];
    assert r == (a + r)[|a|..] && s == (b + s)[|b|..];
  }

  lemma Regroup(a: string, b: string, c: string)
    ensures (a + b) + c == a + (b + c)
  {
  }

  function Digit(n: nat): (c: char)
    requires n < 10
    ensures '0' <= c <= '9'
  {
    '0' + n as char
  }

  predicate AllDigits(s: string) {
    forall i | 0 <= i < |s| :: '0' <= s[i] <= '9'
  }

  lemma DigitsOnly(s: string, c: char)
    requires AllDigits(s) && !('0' <= c <= '9')
    ensures c !in s
  {
  }

  /** Decimal rendering without leading zeros, as MySQL's LENGTH() and Go's integer formatting print it. */
  function Decimal(n: nat): (s: string)
    ensures |s| > 0 && AllDigits(s)
  {
    if n < 10 then [Digit(n)] else Decimal(n / 10) + [Digit(n % 10)]
  }

  /** The number a digit string denotes. */
  function Value(s: string): nat
    requires AllDigits(s)
  {
    if s == [] then 0 else 10 * Value(s[..|s| - 1]) + (s[|s| - 1] - '0') as int
  }

  lemma {:induction false} ValueOfDecimal(n: nat)
    ensures Value(Decimal(n)) == n
  {
    var s := Decimal(n);
    if n < 10 {
      assert s[..|s| - 1] == [];
    } else {
      ValueOfDecimal(n / 10);
      assert s[..|s| - 1] == Decimal(n / 10);
    }
  }

  /** Decimal rendering padded with leading zeros to a fixed width. */
  function Padded(n: nat, width: nat): (s: string)
    ensures |s| == width && AllDigits(s)
  {
    if width == 0 then [] else Padded(n / 10, width - 1) + [Digit(n % 10)]
  }

  function Pow10(k: nat): (p: nat)
    ensures p > 0
  {
    if k == 0 then 1 else 10 * Pow10(k - 1)
  }

  lemma {:induction false} ValueOfPadded(n: nat, width: nat)
    requires n < Pow10(width)
    ensures Value(Padded(n, width)) == n
  {
    if width > 0 {
      ValueOfPadded(n / 10, width - 1);
      var s := Padded(n, width);
      assert s[..|s| - 1] == Padded(n / 10, width - 1);
    }
  }
}
