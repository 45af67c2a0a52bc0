/** UTF-8 as section 4 of RFC 3629 defines it, and the validator's report on a malformed sequence. */
module Utf8 {

  type byte = b: int | 0 <= b < 256

  predicate Continuation(b: byte) {
    0x80 <= b <= 0xBF
  }

  /** The length the first byte announces, or 0 when no character starts with it. */
  function Width(b: byte): nat {
    if b <= 0x7F then 1
    else if 0xC2 <= b <= 0xDF then 2
    else if 0xE0 <= b <= 0xEF then 3
    else if 0xF0 <= b <= 0xF4 then 4
    else 0
  }

  /** The second byte rules out overlong forms, surrogates and values past U+10FFFF. */
  predicate SecondOk(first: byte, second: byte) {
    if first == 0xE0 then 0xA0 <= second <= 0xBF
    else if first == 0xED then 0x80 <= second <= 0x9F
    else if first == 0xF0 then 0x90 <= second <= 0xBF
    else if first == 0xF4 then 0x80 <= second <= 0x8F
    else Continuation(second)
  }

  /** The bytes after the first, as far as they are there, continue the character. */
  predicate Continues(s: seq<byte>, upto: nat)
    requires 1 <= upto <= |s|
  {
    && (upto >= 2 ==> SecondOk(s[0], s[1]))
    && forall i :: 2 <= i < upto ==> Continuation(s[i])
  }

  /** The length of the character at the front, or 0 when none is complete there. */
  function CharLen(s: seq<byte>): (n: nat)
    ensures n <= 4 && n <= |s|
  {
    if s == [] then 0
    else
      var w := Width(s[0]);
      if 1 <= w <= |s| && Continues(s, w) then w else 0
  }

  /** The sequence ends inside what could still become a character. */
  predicate Truncated(s: seq<byte>) {
    |s| > 0 && |s| < Width(s[0]) && Continues(s, |s|)
  }

  predicate WellFormed(s: seq<byte>)
    decreases |s|
  {
    s == [] || (CharLen(s) > 0 && WellFormed(s[CharLen(s)..]))
  }

  datatype Check = Valid | Invalid(validUpTo: nat, incomplete: bool)

  /** The standard validator: how far the text is valid and whether it merely stops short. */
  function FromUtf8(s: seq<byte>): Check
    decreases |s|
  {
    if s == [] then Valid
    else
      var n := CharLen(s);
      if n == 0 then Invalid(0, Truncated(s))
      else match FromUtf8(s[n..])
        case Valid => Valid
        case Invalid(v, incomplete) => Invalid(n + v, incomplete)
  }

  /** A character ends at position `k`, or `k` is the start. */
  predicate Boundary(s: seq<byte>, k: nat)
    decreases |s|
  {
    k == 0 || (0 < CharLen(s) <= k && Boundary(s[CharLen(s)..], k - CharLen(s)))
  }

  lemma {:induction false} ValidIffWellFormed(s: seq<byte>)
    ensures FromUtf8(s).Valid? <==> WellFormed(s)
    decreases |s|
  {
    if s != [] && CharLen(s) > 0 {
      ValidIffWellFormed(s[CharLen(s)..]);
    }
  }

  /** A character is found from its own bytes, whatever follows. */
  lemma CharLenPrefix(s: seq<byte>, t: seq<byte>)
    requires CharLen(s) > 0 && s <= t
    ensures CharLen(t) == CharLen(s)
  {
  }

  lemma {:induction false} ConcatWellFormed(a: seq<byte>, b: seq<byte>)
    requires WellFormed(a) && WellFormed(b)
    ensures WellFormed(a + b)
    decreases |a|
  {
    if a == [] {
      assert a + b == b;
    } else {
      var n := CharLen(a);
      CharLenPrefix(a, a + b);
      ConcatWellFormed(a[n..], b);
      assert (a + b)[n..] == a[n..] + b;
    }
  }

  /** A boundary splits a well-formed text into two. */
  lemma {:induction false} BoundarySplits(s: seq<byte>, k: nat)
    requires WellFormed(s) && k <= |s| && Boundary(s, k)
    ensures WellFormed(s[..k]) && WellFormed(s[k..])
    decreases |s|
  {
    if k > 0 {
      var n := CharLen(s);
      BoundarySplits(s[n..], k - n);
      assert s[..k][n..] == s[n..][..k - n];
      assert s[k..] == s[n..][k - n..];
      assert CharLen(s[..k]) == n;
    }
  }

  lemma {:induction false} BoundaryAdd(s: seq<byte>, j: nat, k: nat)
    requires j <= |s| && k <= |s| - j && Boundary(s, j) && Boundary(s[j..], k)
    ensures Boundary(s, j + k)
    decreases |s|
  {
    hide CharLen;
    if j > 0 {
      var n := CharLen(s);
      assert s[j..] == s[n..][j - n..];
      BoundaryAdd(s[n..], j - n, k);
    }
  }

  lemma {:induction false} WholeIsBoundary(s: seq<byte>)
    requires WellFormed(s)
    ensures Boundary(s, |s|)
    decreases |s|
  {
    if s != [] {
      WholeIsBoundary(s[CharLen(s)..]);
    }
  }

  /** Cutting a character short leaves it truncated, never malformed. */
  lemma CutCharacter(s: seq<byte>, k: nat)
    requires 0 < k < CharLen(s)
    ensures CharLen(s[..k]) == 0 && Truncated(s[..k])
  {
  }

  /**
    What the validator says of a prefix of well-formed text: it is valid, or it stops at most three
    bytes past a boundary inside a character, and only runs out of bytes.
  */
  lemma {:induction false} PrefixCheck(s: seq<byte>, k: nat)
    requires WellFormed(s) && k <= |s|
    ensures match FromUtf8(s[..k])
      case Valid => Boundary(s, k)
      case Invalid(v, incomplete) =>
        && incomplete && v < k <= v + 3 && Boundary(s, v)
        && v < |s| && k < v + CharLen(s[v..])
    decreases |s|
  {
    if k > 0 {
      var n := CharLen(s);
      if k < n {
        CutCharacter(s, k);
        assert s[0..] == s;
      } else {
        assert CharLen(s[..k]) == n;
        assert s[..k][n..] == s[n..][..k - n];
        PrefixCheck(s[n..], k - n);
        var check := FromUtf8(s[n..][..k - n]);
        if check.Invalid? {
          assert s[n..][check.validUpTo..] == s[n + check.validUpTo..];
        }
      }
    }
  }

  /** Inside well-formed text the boundaries are exactly the bytes that do not continue a character. */
  lemma {:induction false} BoundaryIffNotContinuation(s: seq<byte>, k: nat)
    requires WellFormed(s) && k < |s|
    ensures Boundary(s, k) <==> !Continuation(s[k])
    decreases |s|
  {
    var n := CharLen(s);
    if n <= k {
      BoundaryIffNotContinuation(s[n..], k - n);
    }
  }

  /** From any position the next boundary is at most three bytes on. */
  lemma {:induction false} NextBoundary(s: seq<byte>, k: nat) returns (b: nat)
    requires WellFormed(s) && k <= |s|
    ensures k <= b <= k + 3 && b <= |s| && Boundary(s, b)
    ensures forall j :: k <= j < b ==> Continuation(s[j])
    decreases |s|
  {
    if k == 0 {
      return 0;
    }
    var n := CharLen(s);
    if k < n {
      b := n;
      assert Boundary(s[n..], 0);
      assert forall j :: k <= j < n ==> Continuation(s[j]);
    } else {
      b := NextBoundary(s[n..], k - n);
      b := b + n;
      assert forall j :: k <= j < b ==> s[j] == s[n..][j - n];
    }
  }

  lemma {:induction false} AsciiWellFormed(s: seq<byte>)
    requires forall i :: 0 <= i < |s| ==> s[i] < 0x80
    ensures WellFormed(s) && FromUtf8(s).Valid?
    decreases |s|
  {
    if s != [] {
      AsciiWellFormed(s[1..]);
    }
  }

  /** What follows well-formed text in well-formed text is well-formed. */
  lemma {:induction false} SuffixWellFormed(a: seq<byte>, b: seq<byte>)
    requires WellFormed(a) && WellFormed(a + b)
    ensures WellFormed(b)
    decreases |a|
  {
    if a == [] {
      assert a + b == b;
    } else {
      var n := CharLen(a);
      CharLenPrefix(a, a + b);
      assert (a + b)[n..] == a[n..] + b;
      SuffixWellFormed(a[n..], b);
    }
  }

  // ---------------------------------------------------------------------------------------------
  // Against the code points
  // ---------------------------------------------------------------------------------------------

  /** A Unicode code point that is not a surrogate. */
  predicate Scalar(c: int) {
    0 <= c <= 0x10FFFF && !(0xD800 <= c <= 0xDFFF)
  }

  /** The octets of a code point, by the table of section 3 of RFC 3629. */
  function Octets(c: int): seq<byte>
    requires Scalar(c)
  {
    if c < 0x80 then [c]
    else if c < 0x800 then [0xC0 + c / 64, 0x80 + c % 64]
    else if c < 0x10000 then [0xE0 + c / 4096, 0x80 + c / 64 % 64, 0x80 + c % 64]
    else [0xF0 + c / 262144, 0x80 + c / 4096 % 64, 0x80 + c / 64 % 64, 0x80 + c % 64]
  }

  ghost predicate Spells(cs: seq<int>, s: seq<byte>)
    decreases |cs|
  {
    if cs == [] then s == []
    else Scalar(cs[0]) && Octets(cs[0]) <= s && Spells(cs[1..], s[|Octets(cs[0])|..])
  }

  lemma OctetsAreCharacter(c: int)
    requires Scalar(c)
    ensures CharLen(Octets(c)) == |Octets(c)|
  {
    var low, mid, high := c % 64, c / 64 % 64, c / 4096 % 64;
    assert c / 64 / 64 == c / 4096 && c / 4096 / 64 == c / 262144;
    assert c == c / 64 * 64 + low;
    assert c / 64 == c / 4096 * 64 + mid;
    assert c / 4096 == c / 262144 * 64 + high;
  }

  lemma ThreeIsOctets(first: byte, second: byte, third: byte) returns (c: int)
    requires Width(first) == 3 && SecondOk(first, second) && Continuation(third)
    ensures Scalar(c) && Octets(c) == [first, second, third]
  {
    c := (first - 0xE0) * 4096 + (second - 0x80) * 64 + (third - 0x80);
    assert c / 64 == (first - 0xE0) * 64 + (second - 0x80);
    assert c / 4096 == first - 0xE0;
  }

  lemma FourIsOctets(first: byte, second: byte, third: byte, fourth: byte) returns (c: int)
    requires Width(first) == 4 && SecondOk(first, second) && Continuation(third) && Continuation(fourth)
    ensures Scalar(c) && Octets(c) == [first, second, third, fourth]
  {
    c := (first - 0xF0) * 262144 + (second - 0x80) * 4096 + (third - 0x80) * 64 + (fourth - 0x80);
    assert c / 64 == (first - 0xF0) * 4096 + (second - 0x80) * 64 + (third - 0x80);
    assert c / 4096 == (first - 0xF0) * 64 + (second - 0x80);
    assert c / 262144 == first - 0xF0;
  }

  lemma CharacterIsOctets(s: seq<byte>) returns (c: int)
    requires CharLen(s) > 0
    ensures Scalar(c) && Octets(c) == s[..CharLen(s)]
  {
    var n := CharLen(s);
    if n == 1 {
      c := s[0];
    } else if n == 2 {
      var high: int, low: int := s[0] - 0xC0, s[1] - 0x80;
      c := high * 64 + low;
      assert c / 64 == high;
    } else if n == 3 {
      c := ThreeIsOctets(s[0], s[1], s[2]);
    } else {
      c := FourIsOctets(s[0], s[1], s[2], s[3]);
    }
  }

  /** Octets are well-formed exactly when they are those of some code points, one after another. */
  lemma WellFormedIff(s: seq<byte>)
    ensures WellFormed(s) <==> exists cs :: Spells(cs, s)
  {
    if WellFormed(s) {
      var cs := Spelling(s);
    }
    if cs :| Spells(cs, s) {
      SpelledWellFormed(cs, s);
    }
  }

  lemma {:induction false} Spelling(s: seq<byte>) returns (cs: seq<int>)
    requires WellFormed(s)
    ensures Spells(cs, s)
    decreases |s|
  {
    if s == [] {
      cs := [];
    } else {
      hide CharLen, Octets;
      var c := CharacterIsOctets(s);
      var rest := Spelling(s[CharLen(s)..]);
      cs := [c] + rest;
      assert cs[1..] == rest;
    }
  }

  lemma {:induction false} SpelledWellFormed(cs: seq<int>, s: seq<byte>)
    requires Spells(cs, s)
    ensures WellFormed(s)
    decreases |cs|
  {
    if cs != [] {
      OctetsAreCharacter(cs[0]);
      assert Octets(cs[0]) != [];
      hide CharLen, Octets;
      CharLenPrefix(Octets(cs[0]), s);
      SpelledWellFormed(cs[1..], s[|Octets(cs[0])|..]);
    }
  }
}
