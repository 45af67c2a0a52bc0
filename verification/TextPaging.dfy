/**
  Text previews of an archive member, one chunk at a time.

  A chunk is cut by byte count and then trimmed to whole characters, so following `next` pages through
  a member without splitting one.
*/
module TextPaging {
  import opened Common
  import opened Utf8

  const MAX_DECOMPRESSED_INSPECT_BYTES: nat := 512 * 1024 * 1024

  datatype ArchiveError =
    | InvalidRange(offset: nat, size: nat)
    | InspectionLimitExceeded
    | TruncatedMember(expected: nat, actual: nat)
    | BinaryMember

  datatype Chunk = Chunk(bytes: seq<byte>, size: nat, offset: nat, next: Option<nat>)

  function Min(a: nat, b: nat): (m: nat)
    ensures m <= a && m <= b && (m == a || m == b)
  {
    if a <= b then a else b
  }

  /** The chunk of a member whose bytes are all there. */
  function ReadChunk(member: seq<byte>, offset: nat, limit: nat): Chunk
    requires offset <= |member|
  {
    var end := offset + Min(|member| - offset, limit);
    Chunk(member[offset..end], |member|, offset, if end < |member| then Some(end) else None)
  }

  /** How many continuation bytes lead the chunk. */
  function Lead(bytes: seq<byte>): (n: nat)
    ensures n <= |bytes|
    ensures forall i :: 0 <= i < n ==> Continuation(bytes[i])
    ensures n < |bytes| ==> !Continuation(bytes[n])
  {
    if bytes == [] || !Continuation(bytes[0]) then 0 else 1 + Lead(bytes[1..])
  }

  function Realign(c: Chunk): Chunk {
    var lead := Lead(c.bytes);
    if c.offset == 0 || !(1 <= lead <= 3) then c
    else c.(bytes := c.bytes[lead..], offset := c.offset + lead)
  }

  function TextChunk(c: Chunk): Result<Chunk, ArchiveError> {
    var c := Realign(c);
    match FromUtf8(c.bytes)
    case Valid => Ok(c)
    case Invalid(v, incomplete) =>
      if incomplete && c.next.Some? && 0 < v <= |c.bytes| then
        Ok(c.(bytes := c.bytes[..v], next := Some(c.offset + v)))
      else Err(BinaryMember)
  }

  // ---------------------------------------------------------------------------------------------
  // The chunk as the reader builds and trims it
  // ---------------------------------------------------------------------------------------------

  class MemberChunk {
    var bytes: seq<byte>
    var size: nat
    var offset: nat
    var next: Option<nat>

    ghost function Value(): Chunk
      reads this
    {
      Chunk(bytes, size, offset, next)
    }

    constructor (c: Chunk)
      ensures Value() == c
    {
      bytes, size, offset, next := c.bytes, c.size, c.offset, c.next;
    }

    /** Skip at most three leading continuation bytes after a mid-character seek. */
    method RealignToCharBoundary()
      modifies this
      ensures Value() == Realign(old(Value()))
    {
      if offset == 0 { return; }
      var lead := 0;
      while lead < |bytes| && Continuation(bytes[lead])
        invariant 0 <= lead <= |bytes|
        invariant lead + Lead(bytes[lead..]) == Lead(bytes)
      {
        assert bytes[lead..][1..] == bytes[lead + 1..];
        lead := lead + 1;
      }
      if 1 <= lead <= 3 {
        bytes := bytes[lead..];
        offset := offset + lead;
      }
    }

    /** Trim the chunk to whole characters; false when it is not text. */
    method Trim() returns (ok: bool)
      modifies this
      ensures ok == TextChunk(old(Value())).Ok?
      ensures ok ==> Value() == TextChunk(old(Value())).value
    {
      RealignToCharBoundary();
      match FromUtf8(bytes) {
        case Valid =>
          ok := true;
        case Invalid(v, incomplete) =>
          ok := incomplete && next.Some? && 0 < v <= |bytes|;
          if ok {
            bytes := bytes[..v];
            next := Some(offset + v);
          }
      }
    }
  }

  /** Read from a stream positioned at `offset`; a stream that ends early is a truncated member. */
  method ReadFromCurrent(reader: seq<byte>, size: nat, offset: nat, limit: nat) returns (r: Result<Chunk, ArchiveError>)
    requires offset <= size
    ensures var count := Min(size - offset, limit);
      r == if |reader| < count then Err(TruncatedMember(size, offset + |reader|))
           else Ok(Chunk(reader[..count], size, offset,
                         if offset + count < size then Some(offset + count) else None))
  {
    var count := Min(size - offset, limit);
    var bytes := reader[..Min(|reader|, count)];
    var end := offset + |bytes|;
    if end != offset + count {
      return Err(TruncatedMember(size, end));
    }
    r := Ok(Chunk(bytes, size, offset, if end < size then Some(end) else None));
  }

  /** Skip to `offset` in a stream that cannot seek, within the inspection budget, and read from there. */
  method ReadSlice(reader: seq<byte>, size: nat, offset: nat, limit: nat, inspectionStart: nat)
    returns (r: Result<Chunk, ArchiveError>)
    ensures offset > size ==> r == Err(InvalidRange(offset, size))
    ensures offset <= size && inspectionStart + offset + Min(size - offset, limit) > 536870912 ==>
      r == Err(InspectionLimitExceeded)
    ensures offset <= size && inspectionStart + offset + Min(size - offset, limit) <= 536870912 ==>
      // Within budget a chunk comes back exactly when the stream reaches its end, and it is that slice,
      // paged by the declared size even when the stream goes on past it.
      var end := offset + Min(size - offset, limit);
      && (|reader| < end ==> r == Err(TruncatedMember(size, |reader|)))
      && (|reader| >= end ==>
        r == Ok(Chunk(reader[offset..end], size, offset, if end < size then Some(end) else None)))
      && (|reader| >= size ==> r == Ok(ReadChunk(reader[..size], offset, limit)))
  {
    if offset > size { return Err(InvalidRange(offset, size)); }
    if inspectionStart + offset + Min(size - offset, limit) > MAX_DECOMPRESSED_INSPECT_BYTES {
      return Err(InspectionLimitExceeded);
    }
    var skipped := Min(|reader|, offset);
    if skipped != offset { return Err(TruncatedMember(size, skipped)); }
    r := ReadFromCurrent(reader[offset..], size, offset, limit);
    ghost var end := offset + Min(size - offset, limit);
    assert |reader| >= end ==> reader[offset..][..end - offset] == reader[offset..end];
    assert |reader| >= size ==> reader[..size][offset..end] == reader[offset..end];
  }

  // ---------------------------------------------------------------------------------------------
  // Paging
  // ---------------------------------------------------------------------------------------------

  /** Every successful chunk moves on, whatever the member holds. */
  lemma AlwaysProgresses(member: seq<byte>, offset: nat, limit: nat)
    requires offset <= |member| && limit > 0
    ensures var r := TextChunk(ReadChunk(member, offset, limit));
      r.Ok? && r.value.next.Some? ==> offset < r.value.next.value <= |member|
  {
  }

  /** The texts of the chunks from `offset` on, following `next` to the end or to the first error. */
  function Pages(member: seq<byte>, offset: nat, limit: nat): Result<seq<seq<byte>>, ArchiveError>
    requires offset <= |member| && limit > 0
    decreases |member| - offset
  {
    var r := TextChunk(ReadChunk(member, offset, limit));
    if r.Err? then Err(r.error)
    else if r.value.next.None? then Ok([r.value.bytes])
    else
      AlwaysProgresses(member, offset, limit);
      var rest := Pages(member, r.value.next.value, limit);
      if rest.Err? then rest else Ok([r.value.bytes] + rest.value)
  }

  function Concat(pages: seq<seq<byte>>): seq<byte> {
    if pages == [] then [] else pages[0] + Concat(pages[1..])
  }

  predicate AllText(pages: seq<seq<byte>>) {
    forall page :: page in pages ==> WellFormed(page)
  }

  /** How much of a cut of `k` bytes into well-formed text the validator keeps. */
  lemma Kept(tail: seq<byte>, k: nat) returns (length: nat)
    requires WellFormed(tail) && k <= |tail|
    ensures length <= k <= length + 3 && Boundary(tail, length) && WellFormed(tail[..length])
    ensures FromUtf8(tail[..k]) == if length == k then Valid else Invalid(length, true)
    ensures length < k ==> k < |tail|
    ensures k > 0 ==> (length > 0 <==> CharLen(tail) <= k)
  {
    PrefixCheck(tail, k);
    if k > 0 { FirstFits(tail, k); }
    match FromUtf8(tail[..k]) {
      case Valid =>
        length := k;
      case Invalid(v, _) =>
        length := v;
        assert CharLen(tail[v..]) <= |tail[v..]|;
    }
    BoundarySplits(tail, length);
  }

  /** Trimming a chunk whose bytes start at a character: whole characters, or nothing when none fits. */
  lemma TrimAligned(c: Chunk, tail: seq<byte>) returns (length: nat)
    requires WellFormed(tail)
    requires var bytes := Realign(c).bytes;
      |bytes| <= |tail| && bytes == tail[..|bytes|] && (c.next.Some? <==> |bytes| < |tail|)
    ensures var a := Realign(c);
      && length <= |a.bytes| <= length + 3 && Boundary(tail, length) && WellFormed(tail[..length])
      && (a.bytes == [] || length > 0 <==> a.bytes == [] || CharLen(tail) <= |a.bytes|)
      && TextChunk(c) ==
           (if length == |a.bytes| then Ok(a)
            else if length > 0 then Ok(a.(bytes := tail[..length], next := Some(a.offset + length)))
            else Err(BinaryMember))
  {
    var a := Realign(c);
    length := Kept(tail, |a.bytes|);
    assert tail[..|a.bytes|][..length] == tail[..length];
  }

  /** The trimmed chunk of a member, once its bytes are known to start a character at `start`. */
  lemma TrimmedChunk(member: seq<byte>, offset: nat, limit: nat, start: nat, length: nat)
    requires offset <= start <= |member| && start <= offset + Min(|member| - offset, limit)
    requires length <= |ReadChunk(member, offset, limit).bytes| - (start - offset)
    requires var c := ReadChunk(member, offset, limit);
      var a := c.(bytes := c.bytes[start - offset..], offset := start);
      TextChunk(c) ==
        if length == |a.bytes| then Ok(a)
        else if length > 0 then Ok(a.(bytes := member[start..][..length], next := Some(start + length)))
        else Err(BinaryMember)
    ensures var r, end := TextChunk(ReadChunk(member, offset, limit)), start + length;
      && (r.Ok? <==> length > 0 || end == offset + Min(|member| - offset, limit))
      && (r.Ok? ==> r.value == Chunk(member[start..end], |member|, start, if end < |member| then Some(end) else None))
  {
    hide TextChunk;
    assert member[start..][..length] == member[start..start + length];
    var c := ReadChunk(member, offset, limit);
    assert c.bytes[start - offset..] == member[start..offset + |c.bytes|];
  }

  /** Every character of well-formed text is at most `limit` bytes wide. */
  predicate Narrow(s: seq<byte>, limit: nat)
    decreases |s|
  {
    CharLen(s) > 0 ==> CharLen(s) <= limit && Narrow(s[CharLen(s)..], limit)
  }

  lemma {:induction false} NarrowWhenShort(s: seq<byte>, limit: nat)
    requires |s| <= limit || limit >= 4
    ensures Narrow(s, limit)
    decreases |s|
  {
    if CharLen(s) > 0 { NarrowWhenShort(s[CharLen(s)..], limit); }
  }

  lemma {:induction false} NarrowConcat(a: seq<byte>, b: seq<byte>, limit: nat)
    requires WellFormed(a)
    ensures Narrow(a + b, limit) <==> Narrow(a, limit) && Narrow(b, limit)
    decreases |a|
  {
    if a == [] {
      assert a + b == b;
    } else {
      var n := CharLen(a);
      CharLenPrefix(a, a + b);
      assert (a + b)[n..] == a[n..] + b;
      NarrowConcat(a[n..], b, limit);
    }
  }

  /**
    One chunk from a boundary: it is served exactly when the first character fits the limit, and is then
    whole characters, starting where it was asked to.
  */
  lemma ChunkAtBoundary(member: seq<byte>, offset: nat, limit: nat) returns (end: nat)
    requires WellFormed(member) && offset <= |member| && Boundary(member, offset) && limit > 0
    ensures var r := TextChunk(ReadChunk(member, offset, limit));
      && (r.Ok? <==> offset == |member| || CharLen(member[offset..]) <= limit)
      && offset <= end <= |member|
      && (r.Ok? ==>
        && r == Ok(Chunk(member[offset..end], |member|, offset, if end < |member| then Some(end) else None))
        && Boundary(member, end) && (offset < |member| ==> offset < end)
        && WellFormed(member[offset..end]) && end <= offset + limit)
  {
    hide WellFormed, Boundary, TextChunk, CharLen;
    var c, tail := ReadChunk(member, offset, limit), member[offset..];
    BoundarySplits(member, offset);
    AlignedAtBoundary(member, offset, limit);
    var length := TrimAligned(c, tail);
    end := offset + length;
    assert c.bytes[0..] == c.bytes;
    TrimmedChunk(member, offset, limit, offset, length);
    BoundaryAdd(member, offset, length);
    assert member[offset..end] == tail[..length];
    CharFits(tail);
  }

  lemma CharFits(s: seq<byte>)
    ensures CharLen(s) <= |s|
    ensures WellFormed(s) && s != [] ==> CharLen(s) > 0
  {
  }

  lemma AlignedAtBoundary(member: seq<byte>, offset: nat, limit: nat)
    requires WellFormed(member) && offset <= |member| && Boundary(member, offset)
    ensures var c := ReadChunk(member, offset, limit); Realign(c) == c && c.bytes == member[offset..][..|c.bytes|]
  {
    hide WellFormed, Boundary;
    if offset < |member| { BoundaryIffNotContinuation(member, offset); }
    var c := ReadChunk(member, offset, limit);
    assert c.bytes == member[offset..][..|c.bytes|];
    assert c.bytes != [] ==> c.bytes[0] == member[offset];
  }

  lemma PagesUnfold(member: seq<byte>, offset: nat, limit: nat, bytes: seq<byte>, end: nat)
    requires offset <= |member| && offset <= end <= |member| && limit > 0
    requires TextChunk(ReadChunk(member, offset, limit))
          == Ok(Chunk(bytes, |member|, offset, if end < |member| then Some(end) else None))
    ensures end == |member| ==> Pages(member, offset, limit) == Ok([bytes])
    ensures end < |member| && Pages(member, end, limit).Ok? ==>
      Pages(member, offset, limit) == Ok([bytes] + Pages(member, end, limit).value)
    ensures end < |member| && Pages(member, end, limit).Err? ==> Pages(member, offset, limit).Err?
  {
    AlwaysProgresses(member, offset, limit);
  }

  /**
    Paging a well-formed member from a boundary reaches the end exactly when every character left fits the
    limit; every chunk is then well-formed, and together they are the rest of the member.
  */
  lemma {:induction false} PagesFromBoundary(member: seq<byte>, offset: nat, limit: nat)
    requires WellFormed(member) && offset <= |member| && Boundary(member, offset) && limit > 0
    ensures var r := Pages(member, offset, limit);
      && (r.Ok? <==> Narrow(member[offset..], limit))
      && (r.Ok? ==> AllText(r.value) && Concat(r.value) == member[offset..])
    decreases |member| - offset
  {
    hide WellFormed, Boundary, TextChunk, CharLen;
    var end := ChunkAtBoundary(member, offset, limit);
    var r := TextChunk(ReadChunk(member, offset, limit));
    BoundarySplits(member, offset);
    CharFits(member[offset..]);
    if r.Ok? {
      if end < |member| { PagesFromBoundary(member, end, limit); }
      PagesCompose(member, offset, limit, end);
      var chunk := member[offset..end];
      assert member[offset..] == chunk + member[end..];
      NarrowWhenShort(chunk, limit);
      NarrowConcat(chunk, member[end..], limit);
      if end == |member| { NarrowWhenShort(member[end..], limit); }
    }
  }

  lemma PagesCompose(member: seq<byte>, offset: nat, limit: nat, end: nat)
    requires offset <= end <= |member| && limit > 0
    requires TextChunk(ReadChunk(member, offset, limit))
          == Ok(Chunk(member[offset..end], |member|, offset, if end < |member| then Some(end) else None))
    requires WellFormed(member[offset..end])
    requires var rest := Pages(member, end, limit);
      end < |member| && rest.Ok? ==> AllText(rest.value) && Concat(rest.value) == member[end..]
    ensures var r := Pages(member, offset, limit);
      && (r.Ok? <==> end == |member| || Pages(member, end, limit).Ok?)
      && (r.Ok? ==> AllText(r.value) && Concat(r.value) == member[offset..])
  {
    hide WellFormed, TextChunk, Pages;
    var first := member[offset..end];
    PagesUnfold(member, offset, limit, first, end);
    if end < |member| {
      if Pages(member, end, limit).Ok? {
        ConcatCons(first, Pages(member, end, limit).value);
        assert first + member[end..] == member[offset..];
      }
    } else {
      ConcatCons(first, []);
      assert [first] + [] == [first];
      assert first + [] == first;
    }
  }

  lemma ConcatCons(page: seq<byte>, pages: seq<seq<byte>>)
    ensures Concat([page] + pages) == page + Concat(pages)
    ensures WellFormed(page) && AllText(pages) ==> AllText([page] + pages)
  {
    assert ([page] + pages)[1..] == pages;
  }

  lemma {:induction false} ConcatPagesWellFormed(pages: seq<seq<byte>>)
    requires AllText(pages)
    ensures WellFormed(Concat(pages))
  {
    if pages != [] {
      assert pages[0] in pages;
      ConcatPagesWellFormed(pages[1..]);
      ConcatWellFormed(pages[0], Concat(pages[1..]));
    }
  }

  /** Whatever the member, a chunk that is served is well-formed text. */
  lemma {:induction false} PagesAreText(member: seq<byte>, offset: nat, limit: nat)
    requires offset <= |member| && limit > 0
    ensures var r := Pages(member, offset, limit);
      r.Ok? ==> AllText(r.value)
    decreases |member| - offset
  {
    var c := ReadChunk(member, offset, limit);
    var r := TextChunk(c);
    if r.Ok? {
      ServedIsText(c);
      if r.value.next.Some? {
        AlwaysProgresses(member, offset, limit);
        PagesAreText(member, r.value.next.value, limit);
      }
    }
  }

  lemma ServedIsText(c: Chunk)
    requires TextChunk(c).Ok?
    ensures WellFormed(TextChunk(c).value.bytes)
  {
    var bytes := Realign(c).bytes;
    ValidIffWellFormed(bytes);
    ValidPrefix(bytes);
  }

  lemma {:induction false} ValidPrefix(s: seq<byte>)
    ensures var check := FromUtf8(s); check.Invalid? ==> check.validUpTo <= |s| && WellFormed(s[..check.validUpTo])
    decreases |s|
  {
    var n := CharLen(s);
    if n > 0 {
      ValidPrefix(s[n..]);
      var check := FromUtf8(s);
      if check.Invalid? {
        var v := check.validUpTo;
        assert s[..v][n..] == s[n..][..v - n];
        CharLenPrefix(s[..n], s[..v]);
        CharLenPrefix(s[..n], s);
      }
    }
  }

  // ---------------------------------------------------------------------------------------------
  // What pages, for any member
  // ---------------------------------------------------------------------------------------------

  /** What one page takes of the member: the bytes it skips at the cut before it, and the text it serves. */
  datatype Piece = Piece(stray: seq<byte>, text: seq<byte>)

  ghost predicate IsPiece(p: Piece) {
    |p.stray| <= 3 && (forall i :: 0 <= i < |p.stray| ==> Continuation(p.stray[i])) && WellFormed(p.text)
  }

  /**
    `rest`, which is the member from one cut on, falls into `pieces`: each at most three stray continuation
    bytes and well-formed text; every piece but the last ends where the limit cuts the member, or before
    the character that cut would split; the first page of the member skips nothing.
  */
  ghost predicate Falls(rest: seq<byte>, first: bool, limit: nat, pieces: seq<Piece>)
    decreases |pieces|
  {
    && pieces != [] && IsPiece(pieces[0]) && (first ==> pieces[0].stray == [])
    && Fits(rest, limit, pieces[0])
    && if |pieces| == 1 then |rest| <= limit
       else limit < |rest| && Falls(rest[|Taken(pieces[0])|..], false, limit, pieces[1..])
  }

  function Taken(p: Piece): seq<byte> {
    p.stray + p.text
  }

  /** The piece is the whole of what is left, or what the limit's cut leaves whole of it. */
  ghost predicate Fits(rest: seq<byte>, limit: nat, p: Piece) {
    && Taken(p) <= rest && |Taken(p)| <= limit
    && if |rest| <= limit then Taken(p) == rest
       else |Taken(p)| < limit ==> p.text != [] && Truncated(rest[|Taken(p)|..limit])
  }

  /** What the window holds past the piece. */
  ghost function Cut(rest: seq<byte>, limit: nat, p: Piece): seq<byte>
    requires Fits(rest, limit, p)
  {
    if limit < |rest| then rest[|Taken(p)|..limit] else []
  }

  lemma WindowIs(rest: seq<byte>, limit: nat, p: Piece)
    requires Fits(rest, limit, p)
    ensures rest[..Min(|rest|, limit)] == p.stray + p.text + Cut(rest, limit, p)
    ensures Cut(rest, limit, p) == [] || (Truncated(Cut(rest, limit, p)) && p.text != [])
    ensures limit < |rest| ==> |p.stray| + |p.text| + |Cut(rest, limit, p)| == limit
  {
    hide Truncated;
    assert rest[..|Taken(p)|] == Taken(p);
    if limit < |rest| {
      assert rest[..limit] == rest[..|Taken(p)|] + rest[|Taken(p)|..limit];
    }
  }


  function Texts(pieces: seq<Piece>): seq<seq<byte>> {
    seq(|pieces|, i requires 0 <= i < |pieces| => pieces[i].text)
  }

  /** The member the pieces make up, stray bytes and all. */
  function Whole(pieces: seq<Piece>): seq<byte> {
    if pieces == [] then [] else pieces[0].stray + pieces[0].text + Whole(pieces[1..])
  }

  /** Text followed by the beginning of a character is valid up to that beginning, and so far only incomplete. */
  lemma {:induction false} TextThenCut(text: seq<byte>, cut: seq<byte>)
    requires WellFormed(text)
    ensures cut == [] ==> FromUtf8(text + cut) == Valid
    ensures Truncated(cut) ==> FromUtf8(text + cut) == Invalid(|text|, true)
    decreases |text|
  {
    if text == [] {
      assert text + cut == cut;
    } else {
      var n := CharLen(text);
      CharLenPrefix(text, text + cut);
      assert (text + cut)[n..] == text[n..] + cut;
      TextThenCut(text[n..], cut);
    }
  }

  lemma {:induction false} IncompleteIsCut(s: seq<byte>)
    ensures match FromUtf8(s)
      case Valid => WellFormed(s)
      case Invalid(v, incomplete) => v <= |s| && WellFormed(s[..v]) && (incomplete ==> v < |s| && Truncated(s[v..]))
    decreases |s|
  {
    ValidIffWellFormed(s);
    ValidPrefix(s);
    if s != [] && CharLen(s) > 0 {
      var n := CharLen(s);
      IncompleteIsCut(s[n..]);
      var check := FromUtf8(s[n..]);
      if check.Invalid? { assert s[n..][check.validUpTo..] == s[n + check.validUpTo..]; }
    } else {
      assert s[0..] == s;
    }
  }

  /** Well-formed text does not start with a continuation byte. */
  lemma TextStarts(text: seq<byte>)
    requires WellFormed(text) && text != []
    ensures !Continuation(text[0])
  {
  }

  lemma {:induction false} LeadIs(stray: seq<byte>, rest: seq<byte>)
    requires (forall i :: 0 <= i < |stray| ==> Continuation(stray[i])) && (rest != [] ==> !Continuation(rest[0]))
    ensures Lead(stray + rest) == |stray|
  {
    var n := Lead(stray + rest);
    assert forall i :: 0 <= i < |stray| ==> (stray + rest)[i] == stray[i];
    assert rest != [] ==> (stray + rest)[|stray|] == rest[0];
  }

  /** A window of stray bytes, text and the beginning of a character is realigned past the stray bytes. */
  lemma RealignedWindow(c: Chunk, p: Piece, cut: seq<byte>)
    requires IsPiece(p) && (c.offset == 0 ==> p.stray == []) && c.bytes == p.stray + p.text + cut
    requires cut != [] ==> p.text != []
    ensures Realign(c).bytes == p.text + cut && Realign(c).offset == c.offset + |p.stray| && Realign(c).next == c.next
  {
    assert c.bytes == p.stray + (p.text + cut);
    if p.text != [] {
      TextStarts(p.text);
      assert (p.text + cut)[0] == p.text[0];
    }
    LeadIs(p.stray, p.text + cut);
    assert (p.stray + (p.text + cut))[|p.stray|..] == p.text + cut;
  }

  /** A chunk of text and the beginning of a character is served as the text. */
  lemma CutTrimmed(c: Chunk, text: seq<byte>, cut: seq<byte>)
    requires WellFormed(text) && Realign(c).bytes == text + cut
    requires cut == [] || (Truncated(cut) && text != [] && c.next.Some?)
    ensures var a := Realign(c);
      TextChunk(c) == Ok(Chunk(text, a.size, a.offset, if cut == [] then a.next else Some(a.offset + |text|)))
  {
    var stray := RealignSplits(c);
    hide Realign, WellFormed, Truncated, FromUtf8;
    TextThenCut(text, cut);
    assert (text + cut)[..|text|] == text;
    if cut == [] { assert text + cut == text; }
  }

  /** A window that falls into a piece and a cut is served as that piece. */
  lemma PieceServed(member: seq<byte>, offset: nat, limit: nat, p: Piece)
    requires offset <= |member| && limit > 0 && IsPiece(p) && (offset == 0 ==> p.stray == [])
    requires Fits(member[offset..], limit, p)
    ensures var end := offset + |p.stray| + |p.text|;
      TextChunk(ReadChunk(member, offset, limit))
        == Ok(Chunk(p.text, |member|, offset + |p.stray|, if end < |member| then Some(end) else None))
  {
    hide TextChunk, Realign, WellFormed, Truncated;
    var rest := member[offset..];
    var c := ReadChunk(member, offset, limit);
    var cut := Cut(rest, limit, p);
    WindowIs(rest, limit, p);
    assert c.bytes == rest[..Min(|rest|, limit)];
    RealignedWindow(c, p, cut);
    CutTrimmed(c, p.text, cut);
    KeepsSize(c);
  }

  lemma KeepsSize(c: Chunk)
    ensures Realign(c).size == c.size
  {
  }

  lemma {:induction false} FallsServes(member: seq<byte>, offset: nat, limit: nat, pieces: seq<Piece>)
    requires offset <= |member| && limit > 0 && Falls(member[offset..], offset == 0, limit, pieces)
    ensures Pages(member, offset, limit) == Ok(Texts(pieces)) && Whole(pieces) == member[offset..]
    decreases |pieces|
  {
    hide TextChunk, WellFormed, Truncated;
    var p := pieces[0];
    var end := offset + |p.stray| + |p.text|;
    PieceServed(member, offset, limit, p);
    AlwaysProgresses(member, offset, limit);
    if |pieces| == 1 {
      assert Texts(pieces) == [p.text];
      assert Whole(pieces[1..]) == [] && p.stray + p.text + [] == p.stray + p.text;
    } else {
      assert member[offset..][|Taken(p)|..] == member[end..];
      FallsServes(member, end, limit, pieces[1..]);
      assert Texts(pieces) == [p.text] + Texts(pieces[1..]);
      assert member[offset..] == member[offset..end] + member[end..];
      assert p.stray + p.text == member[offset..end];
    }
  }

  /** Realigning splits off at most three continuation bytes, and none at the start of the member. */
  lemma RealignSplits(c: Chunk) returns (stray: seq<byte>)
    ensures c.bytes == stray + Realign(c).bytes && |stray| <= 3 && (c.offset == 0 ==> stray == [])
    ensures forall i :: 0 <= i < |stray| ==> Continuation(stray[i])
    ensures Realign(c).next == c.next
  {
    stray := c.bytes[..|c.bytes| - |Realign(c).bytes|];
  }

  /** What a chunk is served as is the front of it, and the rest of it the beginning of a character. */
  lemma ServedSplits(c: Chunk) returns (text: seq<byte>, cut: seq<byte>)
    requires TextChunk(c).Ok?
    ensures Realign(c).bytes == text + cut && WellFormed(text)
    ensures cut == [] || (text != [] && Truncated(cut) && c.next.Some?)
  {
    var stray := RealignSplits(c);
    hide Realign, WellFormed, Truncated;
    var a := Realign(c);
    IncompleteIsCut(a.bytes);
    match FromUtf8(a.bytes)
    case Valid => text, cut := a.bytes, [];
    case Invalid(v, _) => text, cut := a.bytes[..v], a.bytes[v..];
  }

  /** The piece a served chunk takes. */
  lemma ServedPiece(member: seq<byte>, offset: nat, limit: nat) returns (p: Piece)
    requires offset <= |member| && limit > 0 && TextChunk(ReadChunk(member, offset, limit)).Ok?
    ensures IsPiece(p) && (offset == 0 ==> p.stray == [])
    ensures Fits(member[offset..], limit, p)
  {
    hide TextChunk, Realign, WellFormed, Truncated;
    var c := ReadChunk(member, offset, limit);
    var rest := member[offset..];
    var stray := RealignSplits(c);
    var text, cut := ServedSplits(c);
    p := Piece(stray, text);
    assert c.bytes == rest[..Min(|rest|, limit)] == Taken(p) + cut;
    assert Taken(p) == rest[..|Taken(p)|];
    if limit < |rest| {
      assert rest[|Taken(p)|..limit] == rest[..limit][|Taken(p)|..] == cut;
    }
  }

  lemma {:induction false} ServedFalls(member: seq<byte>, offset: nat, limit: nat) returns (pieces: seq<Piece>)
    requires offset <= |member| && limit > 0 && Pages(member, offset, limit).Ok?
    ensures Falls(member[offset..], offset == 0, limit, pieces)
    decreases |member| - offset
  {
    hide TextChunk, WellFormed, Truncated;
    var p := ServedPiece(member, offset, limit);
    PieceServed(member, offset, limit, p);
    var end := offset + |p.stray| + |p.text|;
    AlwaysProgresses(member, offset, limit);
    if end == |member| {
      pieces := [p];
    } else {
      var more := ServedFalls(member, end, limit);
      pieces := [p] + more;
      assert pieces[1..] == more;
      assert member[offset..][|Taken(p)|..] == member[end..];
    }
  }

  /**
    For any member and limit, paging from the start meets no error exactly when the member falls into
    pieces; the pages are then their texts, and the member is the pages with the stray bytes put back.
  */
  lemma PagesIff(member: seq<byte>, limit: nat)
    requires limit > 0
    ensures Pages(member, 0, limit).Ok? <==> exists pieces :: Falls(member, true, limit, pieces)
    ensures forall pieces :: Falls(member, true, limit, pieces) ==>
      Pages(member, 0, limit) == Ok(Texts(pieces)) && Whole(pieces) == member
  {
    assert member[0..] == member;
    if Pages(member, 0, limit).Ok? {
      var pieces := ServedFalls(member, 0, limit);
    }
    forall pieces | Falls(member, true, limit, pieces)
      ensures Pages(member, 0, limit) == Ok(Texts(pieces)) && Whole(pieces) == member
    {
      FallsServes(member, 0, limit, pieces);
    }
  }

  ghost predicate Skips(pieces: seq<Piece>) {
    exists i :: 0 <= i < |pieces| && pieces[i].stray != []
  }

  lemma SkipsFirst(pieces: seq<Piece>)
    requires pieces != []
    ensures Skips(pieces) <==> pieces[0].stray != [] || Skips(pieces[1..])
  {
    var rest := pieces[1..];
    if Skips(rest) {
      var i :| 0 <= i < |rest| && rest[i].stray != [];
      assert pieces[i + 1] == rest[i];
    }
    if Skips(pieces) && pieces[0].stray == [] {
      var i :| 0 <= i < |pieces| && pieces[i].stray != [];
      assert rest[i - 1] == pieces[i];
    }
  }

  lemma {:induction false} WholeAndServed(pieces: seq<Piece>)
    ensures |Concat(Texts(pieces))| <= |Whole(pieces)|
    ensures !Skips(pieces) ==> Concat(Texts(pieces)) == Whole(pieces)
    ensures Skips(pieces) ==> |Concat(Texts(pieces))| < |Whole(pieces)|
  {
    hide Skips;
    if pieces == [] {
      assert !Skips(pieces) by { NothingSkipped(); }
    } else {
      WholeAndServed(pieces[1..]);
      SkipsFirst(pieces);
      assert Texts(pieces)[1..] == Texts(pieces[1..]);
      assert pieces[0].stray == [] ==> pieces[0].stray + pieces[0].text == pieces[0].text;
    }
  }

  lemma NothingSkipped()
    ensures !Skips([])
  {
  }

  /** A malformed member goes unreported exactly when it falls into pieces some of which skip stray bytes. */
  lemma UnreportedIff(member: seq<byte>, limit: nat)
    requires limit > 0
    ensures !WellFormed(member) && Pages(member, 0, limit).Ok? <==>
      exists pieces :: Falls(member, true, limit, pieces) && Skips(pieces)
  {
    hide Falls, Skips, WellFormed, Pages, Narrow;
    PagesIff(member, limit);
    PagingServesMemberIff(member, limit);
    if pieces :| Falls(member, true, limit, pieces) {
      WholeAndServed(pieces);
      assert Skips(pieces) <==> !WellFormed(member);
    }
    if pieces :| Falls(member, true, limit, pieces) && Skips(pieces) {
      WholeAndServed(pieces);
    }
  }

  /**
    Following `next` from the start serves the member unchanged exactly when the member is well-formed and
    every character of it fits the limit, as every character does a limit of four.  A malformed member may
    still page without an error: stray continuation bytes at a cut are skipped.
  */
  lemma PagingServesMemberIff(member: seq<byte>, limit: nat)
    requires limit > 0
    ensures var r := Pages(member, 0, limit);
      && (r.Ok? && Concat(r.value) == member <==> WellFormed(member) && Narrow(member, limit))
      && (r.Ok? && WellFormed(member) ==> Concat(r.value) == member)
    ensures limit >= 4 ==> Narrow(member, limit)
  {
    var r := Pages(member, 0, limit);
    assert member[0..] == member;
    if WellFormed(member) { PagesFromBoundary(member, 0, limit); }
    if limit >= 4 { NarrowWhenShort(member, limit); }
    if r.Ok? && Concat(r.value) == member {
      PagesAreText(member, 0, limit);
      ConcatPagesWellFormed(r.value);
    }
  }

  /** Four bytes of text, a stray continuation byte, more text: no page reports an error. */
  lemma MalformedMayPage() returns (member: seq<byte>)
    ensures !WellFormed(member)
    ensures Pages(member, 0, 4) == Ok([[0x61, 0x62, 0x63, 0x64], [0x65]])
  {
    var text: seq<byte> := [0x61, 0x62, 0x63, 0x64];
    var tail: seq<byte> := [0x80, 0x65];
    var last: seq<byte> := [0x65];
    member := text + tail;
    AsciiWellFormed(text);
    AsciiWellFormed(last);
    if WellFormed(member) { SuffixWellFormed(text, tail); }
    assert ReadChunk(member, 0, 4) == Chunk(text, 6, 0, Some(4));
    assert tail[1..] == last && Lead(tail) == 1;
    var c := ReadChunk(member, 4, 4);
    assert c == Chunk(tail, 6, 4, None);
    assert TextChunk(c) == Ok(Chunk(last, 6, 5, None));
    assert Pages(member, 4, 4) == Ok([last]);
    assert [text] + [last] == [text, last];
  }

  /**
    A chunk asked for at `offset` begins at the boundary `start`, or at its own cut when that comes first,
    and is served when it reaches no character or one that fits.
  */
  ghost predicate StartsAt(member: seq<byte>, offset: nat, limit: nat, start: nat)
    requires offset <= start <= |member|
  {
    var r := TextChunk(ReadChunk(member, offset, limit));
    var begin := Min(start, offset + limit);
    && (r.Ok? <==> start == |member| || offset + limit <= start || start + CharLen(member[start..]) <= offset + limit)
    && (limit >= 7 ==> r.Ok?)
    && (r.Ok? ==>
          var end := begin + |r.value.bytes|;
          && r.value.offset == begin
          && end <= |member| && r.value.bytes == member[begin..end] && WellFormed(r.value.bytes)
          && r.value.next == if end < |member| then Some(end) else None)
  }

  /**
    Starting mid-character.  The chunk begins at the next character boundary, which a limit of four always
    reaches, and it is served exactly when it reaches no character or the one there fits before the cut;
    seven bytes are always enough.
  */
  lemma MidCharacterStart(member: seq<byte>, offset: nat, limit: nat) returns (start: nat)
    requires WellFormed(member) && offset <= |member| && !Boundary(member, offset) && limit > 0
    ensures offset < start <= offset + 3 && start <= |member| && Boundary(member, start)
    ensures forall j :: offset <= j < start ==> !Boundary(member, j)
    ensures StartsAt(member, offset, limit, start)
  {
    start := NextBoundary(member, offset);
    forall j | offset <= j < start ensures !Boundary(member, j) { BoundaryIffNotContinuation(member, j); }
    if limit > start - offset {
      MidCharacterChunk(member, offset, limit, start);
    } else {
      AllContinuation(member, offset, limit, start);
    }
  }

  /** A window that ends before the next character is skipped whole. */
  lemma AllContinuation(member: seq<byte>, offset: nat, limit: nat, start: nat)
    requires 0 < offset < start <= offset + 3 && start <= |member| && 0 < limit <= start - offset
    requires forall j :: offset <= j < start ==> Continuation(member[j])
    ensures StartsAt(member, offset, limit, start)
  {
    hide Continuation;
    var c := ReadChunk(member, offset, limit);
    assert |c.bytes| == limit && forall j :: 0 <= j < limit ==> c.bytes[j] == member[offset + j];
    assert Lead(c.bytes) == limit;
    assert Realign(c).bytes == [];
  }

  lemma MidCharacterChunk(member: seq<byte>, offset: nat, limit: nat, start: nat)
    requires WellFormed(member) && 0 < offset < start <= offset + 3 && start <= |member| && limit > start - offset
    requires Boundary(member, start) && forall j :: offset <= j < start ==> Continuation(member[j])
    ensures StartsAt(member, offset, limit, start)
  {
    hide WellFormed, Boundary, TextChunk, CharLen, Realign;
    SkipsToBoundary(member, offset, limit, start);
    var c, tail := ReadChunk(member, offset, limit), member[start..];
    assert WellFormed(tail) by { BoundarySplits(member, start); }
    var length := TrimAligned(c, tail);
    TrimmedChunk(member, offset, limit, start, length);
    assert member[start..start + length] == tail[..length];
    CharFits(tail);
  }

  lemma SkipsToBoundary(member: seq<byte>, offset: nat, limit: nat, start: nat)
    requires WellFormed(member) && 0 < offset < start <= offset + 3 && start <= |member| && limit > start - offset
    requires Boundary(member, start) && forall j :: offset <= j < start ==> Continuation(member[j])
    ensures var c := ReadChunk(member, offset, limit);
      && Realign(c) == Chunk(c.bytes[start - offset..], c.size, start, c.next)
      && Realign(c).bytes == member[start..][..|c.bytes| - (start - offset)]
      && (Realign(c).bytes == [] <==> start == |member|)
  {
    hide WellFormed, Boundary, Continuation;
    var c, lead := ReadChunk(member, offset, limit), start - offset;
    if start < |member| { BoundaryIffNotContinuation(member, start); }
    assert lead <= |c.bytes|;
    assert forall j :: 0 <= j < lead ==> c.bytes[j] == member[offset + j];
    assert lead < |c.bytes| ==> c.bytes[lead] == member[start];
    assert Lead(c.bytes) == lead;
    assert c.bytes[lead..] == member[start..][..|c.bytes| - lead];
  }

  /** The validator accepts at least one character of a cut exactly when the first one fits. */
  lemma FirstFits(s: seq<byte>, k: nat)
    requires WellFormed(s) && s != [] && 0 < k <= |s|
    ensures match FromUtf8(s[..k])
      case Valid => CharLen(s) <= k
      case Invalid(v, _) => v > 0 <==> CharLen(s) <= k
  {
    if k < CharLen(s) {
      CutCharacter(s, k);
    } else {
      assert CharLen(s[..k]) == CharLen(s);
    }
  }
}
