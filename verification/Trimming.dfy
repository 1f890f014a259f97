/** Trimming white space of any kind from byte strings; `space` tells the bytes of one white-space character. */
module Trimming {

  /** The length of the white-space character at the front, of one to three bytes; 0 if there is none. */
  function SpaceAtFront(s: string, space: string -> bool): (n: nat)
    ensures n <= 3 && n <= |s| && (n > 0 ==> space(s[..n]))
  {
    if |s| >= 1 && space(s[..1]) then 1
    else if |s| >= 2 && space(s[..2]) then 2
    else if |s| >= 3 && space(s[..3]) then 3
    else 0
  }

  function SpaceAtBack(s: string, space: string -> bool): (n: nat)
    ensures n <= 3 && n <= |s| && (n > 0 ==> space(s[|s| - n..]))
  {
    if |s| >= 1 && space(s[|s| - 1..]) then 1
    else if |s| >= 2 && space(s[|s| - 2..]) then 2
    else if |s| >= 3 && space(s[|s| - 3..]) then 3
    else 0
  }

  /** A character of up to three bytes is found, if there is one. */
  lemma FrontFound(c: string, rest: string, space: string -> bool)
    requires 1 <= |c| <= 3 && space(c)
    ensures SpaceAtFront(c + rest, space) > 0
  {
    assert (c + rest)[..|c|] == c;
  }

  lemma BackFound(rest: string, c: string, space: string -> bool)
    requires 1 <= |c| <= 3 && space(c)
    ensures SpaceAtBack(rest + c, space) > 0
  {
    var s := rest + c;
    assert s[|s| - |c|..] == c;
  }

  function TrimLeft(s: string, space: string -> bool): string {
    var n := SpaceAtFront(s, space);
    if n > 0 then TrimLeft(s[n..], space) else s
  }

  function TrimRight(s: string, space: string -> bool): string {
    var n := SpaceAtBack(s, space);
    if n > 0 then TrimRight(s[..|s| - n], space) else s
  }

  function Trim(s: string, space: string -> bool): string {
    TrimRight(TrimLeft(s, space), space)
  }

  /** Not empty, and no white space at either end. */
  predicate Trimmed(s: string, space: string -> bool) {
    s != "" && SpaceAtFront(s, space) == 0 && SpaceAtBack(s, space) == 0
  }

  /** Nothing but white-space characters. */
  ghost predicate AllSpace(s: string, space: string -> bool) {
    s == "" || exists k :: 0 < k <= |s| && space(s[..k]) && AllSpace(s[k..], space)
  }

  lemma {:induction false} AllSpaceAppend(a: string, c: string, space: string -> bool)
    requires AllSpace(a, space) && c != "" && space(c)
    ensures AllSpace(a + c, space)
  {
    if a == "" {
      AllSpacePrepend(c, "", space);
      assert c + "" == a + c;
    } else {
      var k :| 0 < k <= |a| && space(a[..k]) && AllSpace(a[k..], space);
      AllSpaceAppend(a[k..], c, space);
      AllSpacePrepend(a[..k], a[k..] + c, space);
      assert a[..k] + (a[k..] + c) == a + c;
    }
  }

  lemma AllSpacePrepend(c: string, a: string, space: string -> bool)
    requires AllSpace(a, space) && c != "" && space(c)
    ensures AllSpace(c + a, space)
  {
    assert (c + a)[..|c|] == c && (c + a)[|c|..] == a;
  }

  lemma FirstSpace(s: string, space: string -> bool) returns (first: string, back: string)
    requires SpaceAtFront(s, space) > 0
    ensures s == first + back && 1 <= |first| <= 3 && space(first) && |back| < |s|
    ensures TrimLeft(s, space) == TrimLeft(back, space)
  {
    var n := SpaceAtFront(s, space);
    first, back := s[..n], s[n..];
  }

  lemma {:induction false} TrimLeftMeaning(s: string, space: string -> bool) returns (before: string)
    ensures s == before + TrimLeft(s, space) && AllSpace(before, space) && SpaceAtFront(TrimLeft(s, space), space) == 0
    decreases |s|
  {
    if SpaceAtFront(s, space) == 0 {
      before := "";
    } else {
      var first, back := FirstSpace(s, space);
      var rest := TrimLeftMeaning(back, space);
      AllSpacePrepend(first, rest, space);
      Glue(first, rest, TrimLeft(back, space));
      before := first + rest;
    }
  }

  lemma LastSpace(s: string, space: string -> bool) returns (front: string, last: string)
    requires SpaceAtBack(s, space) > 0
    ensures s == front + last && last != "" && space(last) && |front| < |s|
    ensures TrimRight(s, space) == TrimRight(front, space)
  {
    var cut := |s| - SpaceAtBack(s, space);
    front, last := s[..cut], s[cut..];
  }

  lemma {:induction false} TrimRightMeaning(s: string, space: string -> bool) returns (behind: string)
    ensures s == TrimRight(s, space) + behind && AllSpace(behind, space) && SpaceAtBack(TrimRight(s, space), space) == 0
    decreases |s|
  {
    if SpaceAtBack(s, space) == 0 {
      behind := "";
    } else {
      var front, last := LastSpace(s, space);
      var rest := TrimRightMeaning(front, space);
      AllSpaceAppend(rest, last, space);
      Glue(TrimRight(front, space), rest, last);
      behind := rest + last;
    }
  }

  lemma Glue(a: string, b: string, c: string)
    ensures (a + b) + c == a + (b + c)
  {
  }

  lemma FrontOfPrefix(t: string, behind: string, space: string -> bool)
    requires SpaceAtFront(t + behind, space) == 0
    ensures SpaceAtFront(t, space) == 0
  {
    if SpaceAtFront(t, space) > 0 {
      var front, back := FirstSpace(t, space);
      Glue(front, back, behind);
      FrontFound(front, back + behind, space);
    }
  }

  /** t is what is left of s without white space at its ends. */
  ghost predicate Trims(s: string, t: string, space: string -> bool) {
    exists before, behind :: AllSpace(before, space) && AllSpace(behind, space) && s == before + (t + behind)
  }

  /** Trimming takes away white space at both ends, and all of it. */
  lemma TrimMeaning(s: string, space: string -> bool)
    ensures Trims(s, Trim(s, space), space)
    ensures Trim(s, space) == "" || Trimmed(Trim(s, space), space)
  {
    var before := TrimLeftMeaning(s, space);
    var behind := TrimRightMeaning(TrimLeft(s, space), space);
    FrontOfPrefix(Trim(s, space), behind, space);
  }
}
