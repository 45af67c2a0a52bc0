/**
  Percent-encoding of paths (sections 2.1, 2.3 and 6.2.2.2 of RFC 3986): the encoders, the decoder and the
  canonicalizer, over the bytes of a string.
*/
module Percent {
  import opened Common
  import opened Utf8

  type Bytes = seq<byte>

  const PERCENT: byte := 0x25
  const SLASH: byte := 0x2f
  const PLUS: byte := 0x2b

  predicate IsUnreserved(b: byte) {
    || 0x41 <= b <= 0x5a || 0x61 <= b <= 0x7a || 0x30 <= b <= 0x39
    || b == 0x2d || b == 0x2e || b == 0x5f || b == 0x7e
  }

  function HexDigit(b: byte): Option<nat> {
    if 0x30 <= b <= 0x39 then Some(b - 0x30)
    else if 0x41 <= b <= 0x46 then Some(b - 0x41 + 10)
    else if 0x61 <= b <= 0x66 then Some(b - 0x61 + 10)
    else None
  }

  /** Two hexadecimal digits; the number parser also takes a plus sign for the first. */
  function HexByte(high: byte, low: byte): Option<byte> {
    if HexDigit(low).None? then None
    else if high == PLUS then Some(HexDigit(low).value)
    else if HexDigit(high).None? then None
    else Some(16 * HexDigit(high).value + HexDigit(low).value)
  }

  /** The octet escaped at the head of `p`, which begins with a percent sign. */
  function Escaped(p: Bytes): Option<byte> {
    if |p| >= 3 then HexByte(p[1], p[2]) else None
  }

  /** That octet has a literal spelling. */
  predicate Unescapes(p: Bytes) {
    Escaped(p).Some? && IsUnreserved(Escaped(p).value)
  }

  // ---------------------------------------------------------------------------------------------
  // As functions
  // ---------------------------------------------------------------------------------------------

  function HexChar(n: nat): byte
    requires n < 16
  {
    if n < 10 then 0x30 + n else 0x41 + (n - 10)
  }

  function Escape(b: byte): Bytes {
    [PERCENT, HexChar(b / 16), HexChar(b % 16)]
  }

  /** One byte as an encoder writes it; a path keeps its slashes. */
  function Written(b: byte, path: bool): Bytes {
    if IsUnreserved(b) || (path && b == SLASH) then [b] else Escape(b)
  }

  function Encoded(text: Bytes, path: bool): Bytes {
    if text == [] then [] else Encoded(text[..|text| - 1], path) + Written(text[|text| - 1], path)
  }

  /** The octets a path denotes, or nothing when an escape is malformed. */
  function Decoded(p: Bytes): Option<Bytes> {
    if p == [] then Some([])
    else if p[0] != PERCENT then Cons(p[0], Decoded(p[1..]))
    else if Escaped(p).None? then None
    else Cons(Escaped(p).value, Decoded(p[3..]))
  }

  function Cons(b: byte, rest: Option<Bytes>): Option<Bytes> {
    if rest.Some? then Some([b] + rest.value) else None
  }

  function Decode(p: Bytes): Result<Bytes, Bytes> {
    if PERCENT !in p then Ok(p)
    else if Decoded(p).None? || !WellFormed(Decoded(p).value) then Err(p)
    else Ok(Decoded(p).value)
  }

  /** Unescape the unreserved octets and leave everything else. */
  function Canon(p: Bytes): Bytes {
    if p == [] then []
    else if p[0] == PERCENT && Unescapes(p) then
      [Escaped(p).value] + Canon(p[3..])
    else [p[0]] + Canon(p[1..])
  }

  // ---------------------------------------------------------------------------------------------
  // As loops
  // ---------------------------------------------------------------------------------------------

  class Buffer {
    var bytes: Bytes

    constructor ()
      ensures bytes == []
    {
      bytes := [];
    }

    method PushPercent(b: byte)
      modifies this
      ensures bytes == old(bytes) + Escape(b)
    {
      bytes := bytes + [PERCENT];
      bytes := bytes + [HexChar(b / 16)];
      bytes := bytes + [HexChar(b % 16)];
    }

    method PushComponent(text: Bytes)
      modifies this
      ensures bytes == old(bytes) + Encoded(text, false)
    {
      for i := 0 to |text|
        invariant bytes == old(bytes) + Encoded(text[..i], false)
      {
        assert text[..i + 1][..i] == text[..i];
        if IsUnreserved(text[i]) {
          bytes := bytes + [text[i]];
        } else {
          PushPercent(text[i]);
        }
      }
      assert text[..|text|] == text;
    }

    method PushPath(text: Bytes)
      modifies this
      ensures bytes == old(bytes) + Encoded(text, true)
    {
      for i := 0 to |text|
        invariant bytes == old(bytes) + Encoded(text[..i], true)
      {
        assert text[..i + 1][..i] == text[..i];
        if text[i] == SLASH {
          bytes := bytes + [SLASH];
        } else if IsUnreserved(text[i]) {
          bytes := bytes + [text[i]];
        } else {
          PushPercent(text[i]);
        }
      }
      assert text[..|text|] == text;
    }
  }

  /** The first percent sign, or the length when there is none. */
  function FindPercent(p: Bytes): (n: nat)
    ensures n <= |p| && (n < |p| ==> p[n] == PERCENT)
  {
    if p == [] || p[0] == PERCENT then 0 else 1 + FindPercent(p[1..])
  }

  lemma {:induction false} PlainPrefix(p: Bytes)
    ensures PERCENT !in p[..FindPercent(p)]
    ensures Canon(p) == p[..FindPercent(p)] + Canon(p[FindPercent(p)..])
  {
    if p != [] && p[0] != PERCENT {
      PlainPrefix(p[1..]);
      var n := FindPercent(p);
      assert p[..n] == [p[0]] + p[1..][..n - 1];
      assert p[1..][n - 1..] == p[n..];
    }
  }

  lemma {:induction false} PlainStays(p: Bytes)
    requires PERCENT !in p
    ensures Canon(p) == p && Decoded(p) == Some(p)
  {
    if p != [] {
      PlainStays(p[1..]);
      assert p == [p[0]] + p[1..];
    }
  }

  lemma CanonStep(p: Bytes)
    requires p != [] && p[0] == PERCENT
    ensures Canon(p) == if Unescapes(p) then [Escaped(p).value] + Canon(p[3..]) else [PERCENT] + Canon(p[1..])
  {
  }

  method CanonicalizePath(path: Bytes) returns (canonical: Bytes)
    ensures canonical == Canon(path)
  {
    hide Canon, FindPercent, IsUnreserved, HexByte;
    if PERCENT !in path {
      PlainStays(path);
      return path;
    }
    canonical := [];
    var rest := path;
    var escape := FindPercent(rest);
    while escape < |rest|
      invariant escape == FindPercent(rest)
      invariant Canon(path) == canonical + Canon(rest)
      decreases |rest|
    {
      PlainPrefix(rest);
      canonical := canonical + rest[..escape];
      var tail := rest[escape..];
      CanonStep(tail);
      if Unescapes(tail) {
        canonical := canonical + [Escaped(tail).value];
        rest := tail[3..];
      } else {
        canonical := canonical + [PERCENT];
        rest := tail[1..];
      }
      escape := FindPercent(rest);
    }
    PlainPrefix(rest);
    assert rest[..escape] == rest;
    PlainStays(rest);
    canonical := canonical + rest;
  }

  lemma ConsAppend(out: Bytes, b: byte, rest: Option<Bytes>)
    ensures Prepend(out, Cons(b, rest)) == Prepend(out + [b], rest)
  {
    if rest.Some? { assert out + ([b] + rest.value) == out + [b] + rest.value; }
  }

  function Prepend(out: Bytes, rest: Option<Bytes>): Option<Bytes> {
    if rest.Some? then Some(out + rest.value) else None
  }

  lemma PrependNothing(rest: Option<Bytes>)
    ensures Prepend([], rest) == rest
  {
    if rest.Some? { assert [] + rest.value == rest.value; }
  }

  method DecodePercent(input: Bytes) returns (r: Result<Bytes, Bytes>)
    ensures r == Decode(input)
  {
    if PERCENT !in input { return Ok(input); }
    var out: Bytes := [];
    var i := 0;
    assert input[0..] == input;
    PrependNothing(Decoded(input));
    while i < |input|
      invariant i <= |input|
      invariant Decoded(input) == Prepend(out, Decoded(input[i..]))
    {
      var rest := input[i..];
      if input[i] != PERCENT {
        assert rest[1..] == input[i + 1..];
        ConsAppend(out, input[i], Decoded(input[i + 1..]));
        out := out + [input[i]];
        i := i + 1;
        continue;
      }
      if i + 2 >= |input| { return Err(input); }
      var byte := HexByte(input[i + 1], input[i + 2]);
      if byte.None? { return Err(input); }
      assert rest[3..] == input[i + 3..];
      ConsAppend(out, byte.value, Decoded(input[i + 3..]));
      out := out + [byte.value];
      i := i + 3;
    }
    assert input[i..] == [];
    assert out + [] == out;
    r := if WellFormed(out) then Ok(out) else Err(input);
  }

  // ---------------------------------------------------------------------------------------------
  // Encoding and back
  // ---------------------------------------------------------------------------------------------

  lemma EscapeReads(b: byte)
    ensures HexByte(HexChar(b / 16), HexChar(b % 16)) == Some(b)
    ensures HexChar(b / 16) != PERCENT && HexChar(b % 16) != PERCENT
  {
  }

  /** Decoding one written byte, with whatever follows. */
  lemma WrittenDecodes(b: byte, path: bool, rest: Bytes)
    ensures Decoded(Written(b, path) + rest) == Cons(b, Decoded(rest))
  {
    var p := Written(b, path) + rest;
    if p[0] == PERCENT {
      EscapeReads(b);
      assert p[3..] == rest;
    } else {
      assert p[1..] == rest;
    }
  }

  lemma WrittenCanon(b: byte, path: bool, rest: Bytes)
    ensures Canon(Written(b, path) + rest) == Written(b, path) + Canon(rest)
  {
    var p := Written(b, path) + rest;
    if p[0] == PERCENT {
      EscapeReads(b);
      assert p[1..][1..][1..] == rest;
      assert Canon(p) == [PERCENT] + Canon(p[1..]);
      assert Canon(p[1..]) == [p[1]] + Canon(p[1..][1..]);
      assert Canon(p[1..][1..]) == [p[2]] + Canon(rest);
    } else {
      assert p[1..] == rest;
    }
  }

  lemma {:induction false} EncodedDecodes(text: Bytes, path: bool, rest: Bytes)
    ensures Decoded(Encoded(text, path) + rest) == Prepend(text, Decoded(rest))
  {
    if text == [] {
      assert Encoded(text, path) + rest == rest;
      if Decoded(rest).Some? { assert [] + Decoded(rest).value == Decoded(rest).value; }
    } else {
      var front, b := text[..|text| - 1], text[|text| - 1];
      assert Encoded(text, path) + rest == Encoded(front, path) + (Written(b, path) + rest);
      EncodedDecodes(front, path, Written(b, path) + rest);
      WrittenDecodes(b, path, rest);
      ConsAppend(front, b, Decoded(rest));
      assert front + [b] == text;
    }
  }

  lemma {:induction false} EncodedCanon(text: Bytes, path: bool, rest: Bytes)
    ensures Canon(Encoded(text, path) + rest) == Encoded(text, path) + Canon(rest)
  {
    if text == [] {
      assert Encoded(text, path) + rest == rest;
    } else {
      var front, b := text[..|text| - 1], text[|text| - 1];
      assert Encoded(text, path) + rest == Encoded(front, path) + (Written(b, path) + rest);
      EncodedCanon(front, path, Written(b, path) + rest);
      WrittenCanon(b, path, rest);
    }
  }

  /** Decoding what either encoder writes for a string returns the string. */
  lemma RoundTrip(text: Bytes, path: bool)
    requires WellFormed(text)
    ensures Decode(Encoded(text, path)) == Ok(text)
  {
    EncodedDecodes(text, path, []);
    assert Encoded(text, path) + [] == Encoded(text, path);
    assert text + [] == text;
    if PERCENT !in Encoded(text, path) { PlainStays(Encoded(text, path)); }
  }

  /** What either encoder writes is already canonical. */
  lemma EncodedIsCanonical(text: Bytes, path: bool)
    ensures Canon(Encoded(text, path)) == Encoded(text, path)
  {
    EncodedCanon(text, path, []);
    assert Encoded(text, path) + [] == Encoded(text, path);
  }

  // ---------------------------------------------------------------------------------------------
  // Canonicalizing
  // ---------------------------------------------------------------------------------------------

  function Slashes(p: Bytes): nat {
    if p == [] then 0 else (if p[0] == SLASH then 1 else 0) + Slashes(p[1..])
  }

  /** A kept escape is copied whole. */
  lemma KeptEscape(p: Bytes)
    requires p != [] && p[0] == PERCENT && Escaped(p).Some? && !IsUnreserved(Escaped(p).value)
    ensures Canon(p) == [PERCENT, p[1], p[2]] + Canon(p[3..])
    ensures p[1] != PERCENT && p[2] != PERCENT && p[1] != SLASH && p[2] != SLASH
  {
    assert p[1..][1..][1..] == p[3..];
    assert Canon(p[1..]) == [p[1]] + Canon(p[1..][1..]);
    assert Canon(p[1..][1..]) == [p[2]] + Canon(p[3..]);
  }

  /** Segment boundaries stay: no literal slash appears or disappears, whatever the path. */
  lemma {:induction false} SlashesKept(p: Bytes)
    ensures Slashes(Canon(p)) == Slashes(p)
  {
    if p != [] {
      if p[0] == PERCENT && Unescapes(p) {
        SlashesKept(p[3..]);
        assert Canon(p)[1..] == Canon(p[3..]);
        assert p[1..][1..][1..] == p[3..];
        assert Slashes(p[1..]) == Slashes(p[1..][1..]) == Slashes(p[3..]);
      } else {
        SlashesKept(p[1..]);
        assert Canon(p)[1..] == Canon(p[1..]);
      }
    }
  }

  /** For a path whose escapes are well formed, the octets it denotes are kept and nothing is left to do. */
  lemma {:induction false} CanonKeepsMeaning(p: Bytes)
    requires Decoded(p).Some?
    ensures Decoded(Canon(p)) == Decoded(p) && Canon(Canon(p)) == Canon(p)
  {
    if p != [] {
      if p[0] != PERCENT {
        CanonKeepsMeaning(p[1..]);
        assert Canon(p)[1..] == Canon(p[1..]);
      } else {
        CanonKeepsMeaning(p[3..]);
        if IsUnreserved(Escaped(p).value) {
          assert Canon(p)[1..] == Canon(p[3..]);
        } else {
          KeptKeepsMeaning(p);
        }
      }
    }
  }

  lemma KeptKeepsMeaning(p: Bytes)
    requires p != [] && p[0] == PERCENT && Escaped(p).Some? && !IsUnreserved(Escaped(p).value)
    requires Decoded(Canon(p[3..])) == Decoded(p[3..]) && Canon(Canon(p[3..])) == Canon(p[3..])
    ensures Decoded(Canon(p)) == Decoded(p) && Canon(Canon(p)) == Canon(p)
  {
    KeptEscape(p);
    var c := Canon(p);
    assert c[3..] == Canon(p[3..]);
    assert Escaped(c) == Escaped(p);
    KeptEscape(c);
  }

  /** Every path the decoder accepts decodes the same after canonicalizing. */
  lemma AcceptedKeepsMeaning(p: Bytes)
    requires WellFormed(p) && Decode(p).Ok?
    ensures Decode(Canon(p)) == Decode(p) && Canon(Canon(p)) == Canon(p) && Slashes(Canon(p)) == Slashes(p)
  {
    if PERCENT !in p { PlainStays(p); }
    CanonKeepsMeaning(p);
    SlashesKept(p);
    if PERCENT !in Canon(p) { PlainStays(Canon(p)); }
  }

  // ---------------------------------------------------------------------------------------------
  // Malformed escapes
  // ---------------------------------------------------------------------------------------------

  /** The byte canonicalizing `p` starts with and where it goes on, when that byte is not a percent sign. */
  function First(p: Bytes): (r: Option<(byte, Bytes)>)
    ensures r.Some? ==> |r.value.1| < |p|
  {
    if p == [] then None
    else if p[0] != PERCENT then Some((p[0], p[1..]))
    else if Unescapes(p) then Some((Escaped(p).value, p[3..]))
    else None
  }

  /** The octet two such bytes spell after a stray percent sign, and where the path goes on after them. */
  function Pair(p: Bytes): (r: Option<(byte, Bytes)>)
    ensures r.Some? ==> |r.value.1| < |p|
  {
    var a := First(p);
    if a.None? then None else
      var b := First(a.value.1);
      if b.None? || HexByte(a.value.0, b.value.0).None? then None
      else Some((HexByte(a.value.0, b.value.0).value, b.value.1))
  }

  predicate IsStray(p: Bytes) {
    p != [] && p[0] == PERCENT && Escaped(p).None?
  }

  /** No stray percent sign comes to stand before two digits that spell an unreserved octet. */
  predicate Settled(p: Bytes)
    decreases |p|
  {
    if p == [] then true
    else if IsStray(p) then
      (Pair(p[1..]).Some? ==> !IsUnreserved(Pair(p[1..]).value.0)) && Settled(p[1..])
    else if p[0] == PERCENT then Settled(p[3..])
    else Settled(p[1..])
  }

  /**
    The octets of a path read with every stray percent sign taken together with the two digits it comes to
    stand before; nothing when some stray percent sign has no such digits.
  */
  function Repair(p: Bytes): Option<Bytes>
    decreases |p|
  {
    if p == [] then Some([])
    else if IsStray(p) then
      if Pair(p[1..]).None? then None else Cons(Pair(p[1..]).value.0, Repair(Pair(p[1..]).value.1))
    else if p[0] == PERCENT then Cons(Escaped(p).value, Repair(p[3..]))
    else Cons(p[0], Repair(p[1..]))
  }

  lemma FirstIs(p: Bytes)
    ensures First(p).Some? ==>
      Canon(p) == [First(p).value.0] + Canon(First(p).value.1) && First(p).value.0 != PERCENT
    ensures First(p).None? ==> Canon(p) == [] || Canon(p)[0] == PERCENT
  {
  }

  /** After a stray percent sign, canonicalizing leaves an escape exactly when the path has such a pair. */
  lemma PairIs(p: Bytes)
    ensures Pair(p).Some? ==>
      |Canon(p)| >= 2 && Escaped([PERCENT] + Canon(p)) == Some(Pair(p).value.0) && Canon(p)[2..] == Canon(Pair(p).value.1)
    ensures Pair(p).None? ==> Escaped([PERCENT] + Canon(p)).None?
  {
    FirstIs(p);
    if First(p).Some? {
      var rest := First(p).value.1;
      FirstIs(rest);
      assert Canon(p)[1..] == Canon(rest);
      if First(rest).Some? {
        assert Canon(p) == [First(p).value.0, First(rest).value.0] + Canon(First(rest).value.1);
      }
    }
  }

  /** Canonicalizing twice is canonicalizing once exactly when the path is settled. */
  lemma {:induction false} IdempotentIff(p: Bytes)
    ensures Canon(Canon(p)) == Canon(p) <==> Settled(p)
    decreases |p|
  {
    var c := Canon(p);
    if p != [] {
      if IsStray(p) {
        PairIs(p[1..]);
        IdempotentIff(p[1..]);
        assert c == [PERCENT] + Canon(p[1..]) && c[1..] == Canon(p[1..]);
        if Unescapes(c) {
          assert Canon(c)[0] != PERCENT;
        } else {
          assert Canon(c)[1..] == Canon(c[1..]);
        }
      } else if p[0] != PERCENT {
        IdempotentIff(p[1..]);
        assert c[1..] == Canon(p[1..]) && Canon(c)[1..] == Canon(c[1..]);
      } else {
        IdempotentIff(p[3..]);
        if IsUnreserved(Escaped(p).value) {
          assert c[1..] == Canon(p[3..]) && Canon(c)[1..] == Canon(c[1..]);
        } else {
          KeptEscape(p);
          assert c[3..] == Canon(p[3..]);
          KeptEscape(c);
          assert Canon(c)[3..] == Canon(c[3..]);
        }
      }
    }
  }

  /** What the canonical form denotes, told from the path itself. */
  lemma {:induction false} CanonDenotes(p: Bytes)
    ensures Decoded(Canon(p)) == Repair(p)
    decreases |p|
  {
    var c := Canon(p);
    if p != [] {
      if IsStray(p) {
        PairIs(p[1..]);
        assert c == [PERCENT] + Canon(p[1..]);
        if Pair(p[1..]).Some? {
          CanonDenotes(Pair(p[1..]).value.1);
          assert c[3..] == Canon(p[1..])[2..];
        }
      } else if p[0] != PERCENT {
        CanonDenotes(p[1..]);
        assert c[1..] == Canon(p[1..]);
      } else {
        CanonDenotes(p[3..]);
        if IsUnreserved(Escaped(p).value) {
          assert c[1..] == Canon(p[3..]);
        } else {
          KeptEscape(p);
          assert c[3..] == Canon(p[3..]);
        }
      }
    }
  }

  /**
    Canonicalizing changes what a path denotes exactly when the path is malformed and every stray percent
    sign in it comes to stand before two digits.
  */
  lemma MeaningKeptIff(p: Bytes)
    ensures Decoded(Canon(p)) == Decoded(p) <==> Decoded(p).Some? || Repair(p).None?
  {
    if Decoded(p).Some? { CanonKeepsMeaning(p); }
    CanonDenotes(p);
  }

  /** A string stays a string. */
  lemma {:induction false} CanonWellFormed(p: Bytes)
    requires WellFormed(p)
    ensures WellFormed(Canon(p))
    decreases |p|
  {
    if p != [] {
      var n := CharLen(p);
      if p[0] == PERCENT && Unescapes(p) {
        AsciiTail(p, 3);
        CanonWellFormed(p[3..]);
        AsciiWellFormed([Escaped(p).value]);
        ConcatWellFormed([Escaped(p).value], Canon(p[3..]));
      } else {
        CanonWellFormed(p[n..]);
        CharacterKept(p, n);
        CharacterAlone(p);
        ConcatWellFormed(p[..n], Canon(p[n..]));
      }
    }
  }

  lemma CharacterAlone(p: Bytes)
    requires CharLen(p) > 0
    ensures WellFormed(p[..CharLen(p)])
  {
    var c := p[..CharLen(p)];
    assert CharLen(c) == |c| && c[|c|..] == [];
  }

  /** Only its first byte can be a percent sign, so a character that is not an unescaped one is copied whole. */
  lemma {:induction false} CharacterKept(p: Bytes, n: nat)
    requires 0 < n <= CharLen(p) && !(p[0] == PERCENT && Unescapes(p))
    ensures Canon(p) == p[..n] + Canon(p[n..])
  {
    if n == 1 {
      assert p[..1] == [p[0]];
    } else {
      CharacterKept(p, n - 1);
      var rest := p[n - 1..];
      assert Continuation(p[n - 1]);
      assert rest[0] == p[n - 1] && rest[1..] == p[n..];
      assert p[..n] == p[..n - 1] + [p[n - 1]];
    }
  }

  lemma {:induction false} AsciiTail(p: Bytes, n: nat)
    requires WellFormed(p) && n <= |p| && forall i :: 0 <= i < n ==> p[i] < 0x80
    ensures WellFormed(p[n..])
  {
    if n > 0 {
      AsciiTail(p[1..], n - 1);
      assert p[1..][n - 1..] == p[n..];
    }
  }

  /**
    A path the decoder rejects becomes one it accepts exactly when some percent sign in it is stray, every
    stray one comes to stand before two digits, and the octets so read are a string.
  */
  lemma TurnsValidIff(p: Bytes)
    requires WellFormed(p)
    ensures Decode(p).Err? && Decode(Canon(p)).Ok? <==>
      Decoded(p).None? && Repair(p).Some? && WellFormed(Repair(p).value)
  {
    CanonDenotes(p);
    CanonWellFormed(p);
    if PERCENT !in p { PlainStays(p); }
    if PERCENT !in Canon(p) { PlainStays(Canon(p)); }
    if Decoded(p).Some? { CanonKeepsMeaning(p); }
  }

  /** `%%34%31` is malformed, becomes `%41`, and that becomes `A`. */
  lemma MalformedMayTurnValid()
    ensures var p: Bytes := [0x25, 0x25, 0x33, 0x34, 0x25, 0x33, 0x31];
      && Decode(p) == Err(p)
      && Canon(p) == [0x25, 0x34, 0x31] && Decode(Canon(p)) == Ok([0x41])
      && Canon(Canon(p)) == [0x41]
  {
    var p: Bytes := [0x25, 0x25, 0x33, 0x34, 0x25, 0x33, 0x31];
    var a: Bytes := [0x25, 0x33, 0x34, 0x25, 0x33, 0x31];
    var b: Bytes := [0x25, 0x33, 0x31];
    assert p[1..] == a && a[3..] == b && b[3..] == [];
    assert Escaped(p).None? && Escaped(a) == Some(0x34) && Escaped(b) == Some(0x31);
    assert Canon(b) == [0x31] && Canon(a) == [0x34, 0x31];
    var c: Bytes := [0x25, 0x34, 0x31];
    assert Canon(p) == c && c[3..] == [] && Escaped(c) == Some(0x41);
    assert Decoded(c) == Cons(0x41, Decoded(c[3..])) && [0x41] + [] == [0x41];
    AsciiWellFormed([0x41]);
  }

  // ---------------------------------------------------------------------------------------------
  // Against the escapes of RFC 3986
  // ---------------------------------------------------------------------------------------------

  /** Section 2.1 of RFC 3986: both digits are hexadecimal. */
  function StrictByte(high: byte, low: byte): Option<byte> {
    if HexDigit(high).None? || HexDigit(low).None? then None
    else Some(16 * HexDigit(high).value + HexDigit(low).value)
  }

  function StrictEscaped(p: Bytes): Option<byte> {
    if |p| >= 3 then StrictByte(p[1], p[2]) else None
  }

  function StrictDecoded(p: Bytes): Option<Bytes> {
    if p == [] then Some([])
    else if p[0] != PERCENT then Cons(p[0], StrictDecoded(p[1..]))
    else if StrictEscaped(p).None? then None
    else Cons(StrictEscaped(p).value, StrictDecoded(p[3..]))
  }

  function StrictDecode(p: Bytes): Result<Bytes, Bytes> {
    if PERCENT !in p then Ok(p)
    else if StrictDecoded(p).None? || !WellFormed(StrictDecoded(p).value) then Err(p)
    else Ok(StrictDecoded(p).value)
  }

  function StrictCanon(p: Bytes): Bytes {
    if p == [] then []
    else if p[0] == PERCENT && StrictEscaped(p).Some? && IsUnreserved(StrictEscaped(p).value) then
      [StrictEscaped(p).value] + StrictCanon(p[3..])
    else [p[0]] + StrictCanon(p[1..])
  }

  /** Some escape, reading from the left, has a plus sign for its first digit. */
  predicate PlusEscape(p: Bytes) {
    if p == [] then false
    else if p[0] != PERCENT then PlusEscape(p[1..])
    else Escaped(p).Some? && (p[1] == PLUS || PlusEscape(p[3..]))
  }

  /** The strict reading is the decoder's, except that such an escape makes it nothing. */
  lemma {:induction false} StrictReading(p: Bytes)
    ensures StrictDecoded(p) == if PlusEscape(p) then None else Decoded(p)
  {
    if p != [] {
      if p[0] != PERCENT {
        StrictReading(p[1..]);
      } else if Escaped(p).Some? {
        StrictReading(p[3..]);
      }
    }
  }

  /** The decoder departs from RFC 3986 exactly on the paths it accepts that have such an escape. */
  lemma DecodeStrictlyIff(p: Bytes)
    ensures Decoded(p) == StrictDecoded(p) <==> !(Decoded(p).Some? && PlusEscape(p))
    ensures Decode(p) == StrictDecode(p) <==> !(Decode(p).Ok? && PlusEscape(p))
    ensures StrictDecode(p).Ok? ==> Decode(p) == StrictDecode(p)
  {
    StrictReading(p);
    if PERCENT !in p { PlainHasNoEscape(p); }
  }

  lemma {:induction false} PlainHasNoEscape(p: Bytes)
    requires PERCENT !in p
    ensures !PlusEscape(p)
  {
    if p != [] { PlainHasNoEscape(p[1..]); }
  }

  /** A plus escape spells at most 15, which is not unreserved, so the canonicalizer never departs. */
  lemma {:induction false} CanonIsStrict(p: Bytes)
    ensures Canon(p) == StrictCanon(p)
  {
    if p != [] {
      CanonIsStrict(p[1..]);
      if |p| >= 3 { CanonIsStrict(p[3..]); }
    }
  }

  /** The digit parser takes a plus sign: `%+5` decodes, though it is no escape of RFC 3986. */
  lemma PlusIsADigit()
    ensures Decode([0x25, 0x2b, 0x35]) == Ok([0x05]) && StrictDecode([0x25, 0x2b, 0x35]).Err?
  {
    var p: Bytes := [0x25, 0x2b, 0x35];
    assert p[3..] == [] && Escaped(p) == Some(5);
    assert Decoded(p) == Cons(5, Decoded(p[3..])) && [5] + [] == [5];
    AsciiWellFormed([5]);
    assert p[0] == PERCENT;
  }

  // ---------------------------------------------------------------------------------------------
  // The characters themselves
  // ---------------------------------------------------------------------------------------------

  /** ALPHA / DIGIT / "-" / "." / "_" / "~", as section 2.3 of RFC 3986 lists the unreserved characters. */
  predicate Listed(c: char) {
    'A' <= c <= 'Z' || 'a' <= c <= 'z' || '0' <= c <= '9' || c == '-' || c == '.' || c == '_' || c == '~'
  }

  lemma UnreservedIff(b: byte)
    ensures IsUnreserved(b) <==> Listed(b as char)
  {
  }

  /** A hexadecimal digit is read in either case. */
  lemma HexDigitIff(b: byte, n: nat)
    ensures HexDigit(b) == Some(n) <==> n < 16 && (b as char == "0123456789ABCDEF"[n] || b as char == "0123456789abcdef"[n])
  {
  }

  /** It is written in upper case. */
  lemma HexCharIs(n: nat)
    requires n < 16
    ensures HexChar(n) as char == "0123456789ABCDEF"[n]
  {
  }

  /** An encoder writes an unreserved byte as it is, a path encoder a slash too, and any other as two upper-case digits. */
  lemma WrittenIs(b: byte, path: bool)
    ensures Listed(b as char) || (path && b as char == '/') ==> Written(b, path) == [b]
    ensures !Listed(b as char) && !(path && b as char == '/') ==>
      var w := Written(b, path);
      && |w| == 3 && w[0] as char == '%'
      && w[1] as char == "0123456789ABCDEF"[b / 16] && w[2] as char == "0123456789ABCDEF"[b % 16]
  {
    UnreservedIff(b);
    HexCharIs(b / 16);
    HexCharIs(b % 16);
  }

  /** Texts are encoded byte by byte, in order. */
  lemma {:induction false} EncodedConcat(a: Bytes, b: Bytes, path: bool)
    ensures Encoded(a + b, path) == Encoded(a, path) + Encoded(b, path)
    decreases |b|
  {
    if b == [] {
      assert a + b == a;
    } else {
      var front := b[..|b| - 1];
      assert (a + b)[..|a + b| - 1] == a + front;
      EncodedConcat(a, front, path);
    }
  }

  /** A path is canonical exactly when no percent sign of it begins the escape of an unreserved character. */
  lemma {:induction false} CanonicalIff(p: Bytes)
    ensures |Canon(p)| <= |p|
    ensures Canon(p) == p <==> forall i :: 0 <= i < |p| && p[i] == PERCENT ==> !Unescapes(p[i..])
    decreases |p|
  {
    if p != [] {
      assert p[0..] == p;
      if p[0] == PERCENT && Unescapes(p) {
        CanonicalIff(p[3..]);
        assert |Canon(p)| < |p|;
      } else {
        CanonicalIff(p[1..]);
        assert Canon(p) == p <==> Canon(p[1..]) == p[1..] by { assert p == [p[0]] + p[1..]; }
        assert forall i :: 0 <= i < |p[1..]| ==> p[1..][i] == p[i + 1] && p[1..][i..] == p[i + 1..];
        if forall i :: 0 <= i < |p[1..]| && p[1..][i] == PERCENT ==> !Unescapes(p[1..][i..]) {
          forall i | 0 <= i < |p| && p[i] == PERCENT ensures !Unescapes(p[i..]) {
            if i > 0 { assert p[1..][i - 1] == p[i] && p[1..][i - 1..] == p[i..]; }
          }
        }
      }
    }
  }

  /** Canonicalizing leaves no escape of an unreserved character behind exactly when the path is settled. */
  lemma NoneLeftIff(p: Bytes)
    ensures (forall i :: 0 <= i < |Canon(p)| && Canon(p)[i] == PERCENT ==> !Unescapes(Canon(p)[i..])) <==> Settled(p)
  {
    CanonicalIff(Canon(p));
    IdempotentIff(p);
  }
}
