/** Shortening query text to a byte budget without cutting a character (UTF-8, section 4 of RFC 3629). */
module Utf8 {

  predicate InRange(c: char, lo: int, hi: int) {
    lo <= c as int <= hi
  }

  predicate Continuation(c: char) {
    InRange(c, 0x80, 0xBF)
  }

  /** The bytes of the well-formed character that s starts with; 0 if there is none. */
  function CharLength(s: string): (n: nat)
    ensures n <= 4 && n <= |s|
  {
    if |s| >= 1 && InRange(s[0], 0x00, 0x7F) then 1
    else if |s| >= 2 && InRange(s[0], 0xC2, 0xDF) && Continuation(s[1]) then 2
    else if |s| >= 3 && ThreeByteLead(s[0], s[1]) && Continuation(s[2]) then 3
    else if |s| >= 4 && FourByteLead(s[0], s[1]) && Continuation(s[2]) && Continuation(s[3]) then 4
    else 0
  }

  /** No overlong forms and no surrogates. */
  predicate ThreeByteLead(a: char, b: char) {
    || (InRange(a, 0xE0, 0xE0) && InRange(b, 0xA0, 0xBF))
    || (InRange(a, 0xE1, 0xEC) && Continuation(b))
    || (InRange(a, 0xED, 0xED) && InRange(b, 0x80, 0x9F))
    || (InRange(a, 0xEE, 0xEF) && Continuation(b))
  }

  /** No overlong forms and nothing above U+10FFFF. */
  predicate FourByteLead(a: char, b: char) {
    || (InRange(a, 0xF0, 0xF0) && InRange(b, 0x90, 0xBF))
    || (InRange(a, 0xF1, 0xF3) && Continuation(b))
    || (InRange(a, 0xF4, 0xF4) && InRange(b, 0x80, 0x8F))
  }

  /** utf8.ValidString */
  predicate Valid(s: string) {
    s == "" || (CharLength(s) > 0 && Valid(s[CharLength(s)..]))
  }

  // ---- against the definition of the encoding -------------------------------------------------

  /** Unicode scalar values. */
  predicate Scalar(cp: int) {
    0 <= cp < 0xD800 || 0xE000 <= cp <= 0x10FFFF
  }

  function Tail(n: int): char {
    (0x80 + n % 64) as char
  }

  /** The bytes of a scalar value: six bits a byte behind a lead byte that tells how many there are. */
  function Encode(cp: int): (s: string)
    requires Scalar(cp)
    ensures s != ""
  {
    if cp < 0x80 then [cp as char]
    else if cp < 0x800 then [(0xC0 + cp / 64) as char, Tail(cp)]
    else if cp < 0x1_0000 then [(0xE0 + cp / 4096) as char, Tail(cp / 64), Tail(cp)]
    else [(0xF0 + cp / 262144) as char, Tail(cp / 4096), Tail(cp / 64), Tail(cp)]
  }

  lemma EncodedIsCharacter(cp: int, rest: string)
    requires Scalar(cp)
    ensures CharLength(Encode(cp) + rest) == |Encode(cp)|
  {
    var s := Encode(cp) + rest;
    if 0x800 <= cp < 0x1_0000 {
      assert s[0] as int == 0xE0 + cp / 4096 && s[1] as int == 0x80 + cp / 64 % 64;
      assert cp / 4096 == cp / 64 / 64;
    } else if cp >= 0x1_0000 {
      assert s[0] as int == 0xF0 + cp / 262144 && s[1] as int == 0x80 + cp / 4096 % 64;
      assert cp / 262144 == cp / 4096 / 64;
    }
  }

  /** Six more bits. */
  lemma Append6(high: int, low: int)
    requires 0 <= low < 64
    ensures (high * 64 + low) / 64 == high && (high * 64 + low) % 64 == low
  {
  }

  lemma Bits12(a: int, b: int, c: int)
    requires 0 <= b < 64 && 0 <= c < 64
    ensures var cp := (a * 64 + b) * 64 + c; cp / 4096 == a && cp / 64 % 64 == b && cp % 64 == c
  {
    var cp := (a * 64 + b) * 64 + c;
    Append6(a, b);
    Append6(a * 64 + b, c);
    assert cp / 4096 == cp / 64 / 64;
  }

  lemma Bits18(a: int, b: int, c: int, d: int)
    requires 0 <= b < 64 && 0 <= c < 64 && 0 <= d < 64
    ensures var cp := ((a * 64 + b) * 64 + c) * 64 + d;
      cp / 262144 == a && cp / 4096 % 64 == b && cp / 64 % 64 == c && cp % 64 == d
  {
    var cp := ((a * 64 + b) * 64 + c) * 64 + d;
    Bits12(a, b, c);
    Append6((a * 64 + b) * 64 + c, d);
    assert cp / 262144 == cp / 64 / 4096 && cp / 4096 == cp / 64 / 64;
  }

  lemma ThreeBytes(s: string) returns (cp: int)
    requires CharLength(s) == 3
    ensures Scalar(cp) && Encode(cp) == s[..3]
  {
    var a, b, c := s[0] as int - 0xE0, s[1] as int - 0x80, s[2] as int - 0x80;
    cp := (a * 64 + b) * 64 + c;
    Bits12(a, b, c);
  }

  lemma FourBytes(s: string) returns (cp: int)
    requires CharLength(s) == 4
    ensures Scalar(cp) && Encode(cp) == s[..4]
  {
    var a, b, c, d := s[0] as int - 0xF0, s[1] as int - 0x80, s[2] as int - 0x80, s[3] as int - 0x80;
    cp := ((a * 64 + b) * 64 + c) * 64 + d;
    Bits18(a, b, c, d);
  }

  lemma CharacterIsEncoded(s: string) returns (cp: int)
    requires CharLength(s) > 0
    ensures Scalar(cp) && Encode(cp) == s[..CharLength(s)]
  {
    var n := CharLength(s);
    if n == 1 {
      cp := s[0] as int;
    } else if n == 2 {
      cp := (s[0] as int - 0xC0) * 64 + (s[1] as int - 0x80);
      Append6(s[0] as int - 0xC0, s[1] as int - 0x80);
    } else if n == 3 {
      cp := ThreeBytes(s);
    } else {
      cp := FourBytes(s);
    }
  }

  ghost predicate Scalars(cps: seq<int>) {
    forall i | 0 <= i < |cps| :: Scalar(cps[i])
  }

  function EncodeAll(cps: seq<int>): string
    requires forall i | 0 <= i < |cps| :: Scalar(cps[i])
  {
    if cps == [] then "" else Encode(cps[0]) + EncodeAll(cps[1..])
  }

  lemma {:induction false} EncodedIsValid(cps: seq<int>)
    requires Scalars(cps)
    ensures Valid(EncodeAll(cps))
  {
    if cps != [] {
      var first, rest := Encode(cps[0]), EncodeAll(cps[1..]);
      EncodedIsCharacter(cps[0], rest);
      EncodedIsValid(cps[1..]);
      assert (first + rest)[|first|..] == rest;
    }
  }

  lemma {:induction false} ValidIsEncoded(s: string) returns (cps: seq<int>)
    requires Valid(s)
    ensures Scalars(cps) && EncodeAll(cps) == s
  {
    if s == "" {
      cps := [];
    } else {
      var n := CharLength(s);
      var cp := CharacterIsEncoded(s);
      var rest := ValidIsEncoded(s[n..]);
      cps := [cp] + rest;
      assert cps[1..] == rest && s == s[..n] + s[n..];
    }
  }

  /** Valid texts are the encodings of scalar values, and nothing else is valid. */
  lemma ValidIffEncoded(s: string)
    ensures Valid(s) <==> exists cps :: Scalars(cps) && EncodeAll(cps) == s
  {
    if Valid(s) {
      var cps := ValidIsEncoded(s);
    }
    if cps :| Scalars(cps) && EncodeAll(cps) == s {
      EncodedIsValid(cps);
    }
  }

  // ---- prefixes -------------------------------------------------------------------------------

  /** Cutting after a whole first character keeps it, cutting earlier leaves no character. */
  lemma CharLengthOfPrefix(s: string, k: nat)
    requires k <= |s| && CharLength(s) > 0
    ensures CharLength(s[..k]) == if CharLength(s) <= k then CharLength(s) else 0
  {
  }

  /** A valid prefix of a valid string ends on a character boundary. */
  lemma {:induction false} ValidPrefixEndsOnBoundary(s: string, k: nat)
    requires k <= |s| && Valid(s) && Valid(s[..k])
    ensures Valid(s[k..])
  {
    if k > 0 {
      var n := CharLength(s);
      CharLengthOfPrefix(s, k);
      assert s[..k][n..] == s[n..][..k - n];
      ValidPrefixEndsOnBoundary(s[n..], k - n);
      assert s[n..][k - n..] == s[k..];
    }
  }

  /** A valid string has a boundary within the last three bytes of any budget. */
  lemma {:induction false} BoundaryNear(s: string, budget: nat) returns (k: nat)
    requires Valid(s) && budget < |s|
    ensures budget - 3 <= k <= budget && Valid(s[..k])
  {
    var n := CharLength(s);
    if n > budget {
      k := 0;
    } else {
      var rest := BoundaryNear(s[n..], budget - n);
      k := n + rest;
      CharLengthOfPrefix(s, k);
      assert s[..k][n..] == s[n..][..rest];
    }
  }

  /** The longest valid prefix that fits the budget; for valid text it ends on a character boundary and
      gives away at most three bytes.  Text within the budget is left alone. */
  method TruncateUTF8(value: string, maxBytes: nat) returns (r: string)
    ensures |value| <= maxBytes ==> r == value
    ensures |value| > maxBytes ==>
      && r <= value && |r| <= maxBytes && Valid(r)
      && forall k | |r| < k <= maxBytes :: !Valid(value[..k])
    ensures |value| > maxBytes && Valid(value) ==> |r| >= maxBytes - 3 && Valid(value[|r|..])
  {
    if |value| <= maxBytes {
      return value;
    }
    var end := maxBytes;
    while end > 0 && !Valid(value[..end])
      invariant 0 <= end <= maxBytes
      invariant forall k | end < k <= maxBytes :: !Valid(value[..k])
    {
      end := end - 1;
    }
    r := value[..end];
    if Valid(value) {
      var near := BoundaryNear(value, maxBytes);
      ValidPrefixEndsOnBoundary(value, end);
    }
  }
}
