/**
  The other two records a ranged ZIP read crosses, and the read as a whole: from the archive's tail to the
  central directory, from there to an entry, and from its local header to the member's bytes.
*/
module ZipRecords {
  import opened Common
  import opened Utf8
  import opened Zip

  // ---------------------------------------------------------------------------------------------
  // The end-of-central-directory record
  // ---------------------------------------------------------------------------------------------

  datatype End = End(disk: nat, directoryDisk: nat, onDisk: nat, total: nat, size: nat, offset: nat, comment: Bytes)

  ghost predicate EndOk(e: End) {
    && e.disk <= U16_MAX && e.directoryDisk <= U16_MAX && e.onDisk <= U16_MAX && e.total <= U16_MAX
    && e.size <= U32_MAX && e.offset <= U32_MAX && |e.comment| <= U16_MAX
  }

  function EncodeEnd(e: End): (r: Bytes)
    ensures |r| == EOCD_LEN + |e.comment|
  {
    EOCD_SIGNATURE
    + (Le16(e.disk) + Le16(e.directoryDisk) + Le16(e.onDisk) + Le16(e.total))
    + (Le32(e.size) + Le32(e.offset))
    + Le16(|e.comment|)
    + e.comment
  }

  datatype Span = Span(offset: nat, len: nat)

  predicate SignatureAt(tail: Bytes, p: nat) {
    p <= |tail| && StartsWith(tail[p..], EOCD_SIGNATURE)
  }

  /** The last signature at or before `from`. */
  function LastSignature(tail: Bytes, from: nat): Option<nat> {
    if SignatureAt(tail, from) then Some(from) else if from == 0 then None else LastSignature(tail, from - 1)
  }

  function CentralDirectory(tail: Bytes, artifactLen: nat): Option<Span> {
    if |tail| < EOCD_LEN then None else
      var eocd := LastSignature(tail, |tail| - EOCD_LEN);
      if eocd.None? then None else
        LastSignatureIs(tail, |tail| - EOCD_LEN);
        var record := tail[eocd.value..];
        if EOCD_LEN + U16At(record, 20) != |record| then None else
          var len, offset := U32At(record, 12), U32At(record, 16);
          if len == U32_MAX || offset == U32_MAX then None
          else if len > MAX_ZIP_CENTRAL_DIRECTORY_BYTES || offset + len > artifactLen then None
          else Some(Span(offset, len))
  }

  /** No signature starts after `p` and early enough to begin a record. */
  ghost predicate NoneAfter(tail: Bytes, p: nat, last: nat) {
    forall q :: p < q <= last ==> !SignatureAt(tail, q)
  }

  lemma {:induction false} LastSignatureIs(tail: Bytes, from: nat)
    ensures var p := LastSignature(tail, from);
      if p.Some? then p.value <= from && SignatureAt(tail, p.value) && NoneAfter(tail, p.value, from)
      else forall q :: 0 <= q <= from ==> !SignatureAt(tail, q)
  {
    if !SignatureAt(tail, from) && from > 0 { LastSignatureIs(tail, from - 1); }
  }

  lemma LastSignatureOf(tail: Bytes, from: nat, p: nat)
    requires p <= from && SignatureAt(tail, p) && NoneAfter(tail, p, from)
    ensures LastSignature(tail, from) == Some(p)
  {
    LastSignatureIs(tail, from);
  }

  lemma EndFields(e: End)
    requires EndOk(e)
    ensures var r := EncodeEnd(e);
      && StartsWith(r, EOCD_SIGNATURE)
      && U32At(r, 12) == e.size && U32At(r, 16) == e.offset && U16At(r, 20) == |e.comment|
  {
    hide Octet;
    var r := EncodeEnd(e);
    Read32(r, 12, e.size);
    Read32(r, 16, e.offset);
    Read16(r, 20, |e.comment|);
  }

  /** A record whose comment length matches is the encoding of one. */
  lemma EndIsWritten(r: Bytes) returns (e: End)
    requires |r| >= EOCD_LEN && StartsWith(r, EOCD_SIGNATURE) && EOCD_LEN + U16At(r, 20) == |r|
    ensures EndOk(e) && r == EncodeEnd(e) && e.size == U32At(r, 12) && e.offset == U32At(r, 16)
  {
    hide U16At, U32At, Le16, Le32;
    e := End(U16At(r, 4), U16At(r, 6), U16At(r, 8), U16At(r, 10), U32At(r, 12), U32At(r, 16), r[22..]);
    Written16(r, 4);
    Written32(r, 12);
    Write16(r, 20);
    assert r == EOCD_SIGNATURE + r[4..12] + r[12..20] + r[20..22] + r[22..];
  }

  /** The span limits a record must meet. */
  predicate WithinLimits(e: End, artifactLen: nat) {
    e.size <= MAX_ZIP_CENTRAL_DIRECTORY_BYTES && e.offset != U32_MAX && e.offset + e.size <= artifactLen
  }

  /** `tail` ends with the record `e`, and no later signature could begin one. */
  ghost predicate EndsWith(tail: Bytes, e: End) {
    && EndOk(e) && |EncodeEnd(e)| <= |tail|
    && tail[|tail| - |EncodeEnd(e)|..] == EncodeEnd(e)
    && NoneAfter(tail, |tail| - |EncodeEnd(e)|, |tail| - EOCD_LEN)
  }

  lemma EndRecovered(tail: Bytes, artifactLen: nat, e: End)
    requires EndsWith(tail, e)
    ensures CentralDirectory(tail, artifactLen) ==
      if WithinLimits(e, artifactLen) then Some(Span(e.offset, e.size)) else None
  {
    hide U16At, U32At, EncodeEnd, LastSignature;
    EndFields(e);
    LastSignatureOf(tail, |tail| - EOCD_LEN, |tail| - |EncodeEnd(e)|);
  }

  /**
    The reader finds a directory exactly when the tail ends with a record within the limits and no later
    signature could begin another; then it is that record's.
  */
  lemma CentralDirectoryIff(tail: Bytes, artifactLen: nat, span: Span)
    ensures CentralDirectory(tail, artifactLen) == Some(span) <==>
      exists e :: EndsWith(tail, e) && WithinLimits(e, artifactLen) && span == Span(e.offset, e.size)
  {
    if CentralDirectory(tail, artifactLen) == Some(span) {
      LastSignatureIs(tail, |tail| - EOCD_LEN);
      var p := LastSignature(tail, |tail| - EOCD_LEN).value;
      var e := EndIsWritten(tail[p..]);
      assert EndsWith(tail, e);
    }
    if e :| EndsWith(tail, e) && WithinLimits(e, artifactLen) && span == Span(e.offset, e.size) {
      EndRecovered(tail, artifactLen, e);
    }
  }

  // ---------------------------------------------------------------------------------------------
  // The local file header
  // ---------------------------------------------------------------------------------------------

  datatype Local = Local(
    needed: nat, flags: nat, compression: nat, time: nat, date: nat,
    crc: nat, compressed: nat, uncompressed: nat, name: Bytes, extraLen: nat)

  ghost predicate LocalOk(l: Local) {
    && l.needed <= U16_MAX && l.flags <= U16_MAX && l.compression <= U16_MAX && l.time <= U16_MAX && l.date <= U16_MAX
    && l.crc <= U32_MAX && l.compressed <= U32_MAX && l.uncompressed <= U32_MAX
    && |l.name| <= U16_MAX && l.extraLen <= U16_MAX
  }

  /** The header up to the end of the name; `extraLen` bytes of extra field follow it. */
  function EncodeLocal(l: Local): (r: Bytes)
    ensures |r| == LOCAL_HEADER_LEN + |l.name|
  {
    LOCAL_SIGNATURE + Le16(l.needed)
    + (Le16(l.flags) + Le16(l.compression) + Le16(l.time) + Le16(l.date))
    + (Le32(l.crc) + Le32(l.compressed) + Le32(l.uncompressed))
    + (Le16(|l.name|) + Le16(l.extraLen))
    + l.name
  }

  datatype Field = Flags | Compression | NameLength | Crc | CompressedSize | UncompressedSize

  datatype RecordError =
    | ShortLocalHeader(expected: nat, actual: nat)
    | NoLocalSignature
    | NameMismatch(found: Bytes)
    | HeaderMismatch(field: Field, expected: nat, actual: nat)

  function LocalHeaderLen(e: ZipEntry): nat {
    LOCAL_HEADER_LEN + |e.name|
  }

  /** General-purpose bit 3: the local CRC and sizes are placeholders. */
  predicate Deferred(flags: nat) {
    flags / 8 % 2 == 1
  }

  function Agree(field: Field, expected: nat, actual: nat): Result<(), RecordError> {
    if expected == actual then Ok(()) else Err(HeaderMismatch(field, expected, actual))
  }

  function DataStart(e: ZipEntry, header: Bytes): Result<nat, RecordError> {
    if |header| < LocalHeaderLen(e) then Err(ShortLocalHeader(LocalHeaderLen(e), |header|))
    else if !StartsWith(header, LOCAL_SIGNATURE) then Err(NoLocalSignature)
    else if Agree(Flags, e.flags, U16At(header, 6)).Err? then Err(Agree(Flags, e.flags, U16At(header, 6)).error)
    else if Agree(Compression, e.compression, U16At(header, 8)).Err? then
      Err(Agree(Compression, e.compression, U16At(header, 8)).error)
    else
      var nameLen := U16At(header, 26);
      if Agree(NameLength, |e.name|, nameLen).Err? then Err(Agree(NameLength, |e.name|, nameLen).error)
      else
        var name := header[LOCAL_HEADER_LEN..][..nameLen];
        if name != e.name then Err(NameMismatch(name))
        else if Deferred(e.flags) then Start(e, header)
        else if Agree(Crc, e.crc, U32At(header, 14)).Err? then Err(Agree(Crc, e.crc, U32At(header, 14)).error)
        else if Agree(CompressedSize, e.compressed, U32At(header, 18)).Err? then
          Err(Agree(CompressedSize, e.compressed, U32At(header, 18)).error)
        else if Agree(UncompressedSize, e.uncompressed, U32At(header, 22)).Err? then
          Err(Agree(UncompressedSize, e.uncompressed, U32At(header, 22)).error)
        else Start(e, header)
  }

  function Start(e: ZipEntry, header: Bytes): Result<nat, RecordError>
    requires |header| >= LOCAL_HEADER_LEN
  {
    Ok(e.offset + LocalHeaderLen(e) + U16At(header, 28))
  }

  /** The local header describes the member the directory entry does. */
  predicate Agrees(e: ZipEntry, l: Local) {
    && l.name == e.name && l.flags == e.flags && l.compression == e.compression
    && (Deferred(e.flags) || (l.crc == e.crc && l.compressed == e.compressed && l.uncompressed == e.uncompressed))
  }

  ghost predicate Begins(header: Bytes, l: Local, rest: Bytes) {
    LocalOk(l) && header == EncodeLocal(l) + rest
  }

  lemma LocalFields(l: Local, rest: Bytes)
    requires LocalOk(l)
    ensures var h := EncodeLocal(l) + rest;
      && StartsWith(h, LOCAL_SIGNATURE)
      && U16At(h, 6) == l.flags && U16At(h, 8) == l.compression
      && U16At(h, 26) == |l.name| && U16At(h, 28) == l.extraLen
      && h[LOCAL_HEADER_LEN..][..|l.name|] == l.name
  {
    hide Octet;
    var h := EncodeLocal(l) + rest;
    Read16(h, 6, l.flags);
    Read16(h, 8, l.compression);
    Read16(h, 26, |l.name|);
    Read16(h, 28, l.extraLen);
  }

  lemma LocalSizes(l: Local, rest: Bytes)
    requires LocalOk(l)
    ensures var h := EncodeLocal(l) + rest;
      U32At(h, 14) == l.crc && U32At(h, 18) == l.compressed && U32At(h, 22) == l.uncompressed
  {
    hide Octet;
    var h := EncodeLocal(l) + rest;
    Read32(h, 14, l.crc);
    Read32(h, 18, l.compressed);
    Read32(h, 22, l.uncompressed);
  }

  lemma LocalIsWritten(h: Bytes) returns (l: Local, rest: Bytes)
    requires |h| >= LOCAL_HEADER_LEN && StartsWith(h, LOCAL_SIGNATURE) && LOCAL_HEADER_LEN + U16At(h, 26) <= |h|
    ensures LocalOk(l) && h == EncodeLocal(l) + rest
  {
    hide U16At, U32At, Le16, Le32;
    var end := LOCAL_HEADER_LEN + U16At(h, 26);
    l := Local(U16At(h, 4), U16At(h, 6), U16At(h, 8), U16At(h, 10), U16At(h, 12),
      U32At(h, 14), U32At(h, 18), U32At(h, 22), h[LOCAL_HEADER_LEN..end], U16At(h, 28));
    rest := h[end..];
    Write16(h, 4);
    Written16(h, 6);
    Written32(h, 14);
    Write32(h, 22);
    Write16(h, 26);
    Write16(h, 28);
    assert h == LOCAL_SIGNATURE + h[4..6] + h[6..14] + (h[14..22] + h[22..26]) + (h[26..28] + h[28..30])
      + h[LOCAL_HEADER_LEN..end] + rest;
  }

  lemma AgreeingHeader(e: ZipEntry, l: Local, rest: Bytes)
    requires LocalOk(l)
    ensures Agrees(e, l) ==> DataStart(e, EncodeLocal(l) + rest) == Ok(e.offset + LocalHeaderLen(e) + l.extraLen)
    ensures !Agrees(e, l) ==> DataStart(e, EncodeLocal(l) + rest).Err?
  {
    hide U16At, U32At, EncodeLocal;
    LocalFields(l, rest);
    LocalSizes(l, rest);
  }

  /** A header is accepted exactly when it begins with one that agrees with the entry. */
  lemma DataStartIff(e: ZipEntry, header: Bytes, start: nat)
    ensures DataStart(e, header) == Ok(start) <==>
      exists l, rest :: Begins(header, l, rest) && Agrees(e, l) && start == e.offset + LocalHeaderLen(e) + l.extraLen
  {
    if DataStart(e, header) == Ok(start) {
      var l, rest := LocalIsWritten(header);
      AgreeingHeader(e, l, rest);
      assert Begins(header, l, rest);
    }
    if l, rest :| Begins(header, l, rest) && Agrees(e, l) && start == e.offset + LocalHeaderLen(e) + l.extraLen {
      AgreeingHeader(e, l, rest);
    }
  }

  /** What the two predicates above say: the limits, and which fields a header must share with its entry. */
  lemma RecordsAre(end: End, artifactLen: nat, e: ZipEntry, l: Local, one: nat, two: nat, three: nat, eleven: nat)
    ensures WithinLimits(end, artifactLen) <==>
      end.size <= 16777216 && end.offset != 0xffff_ffff && end.offset + end.size <= artifactLen
    ensures OnlyBits(e.flags, one, two, three, eleven) ==>
      (Agrees(e, l) <==>
        && l.name == e.name && l.flags == e.flags && l.compression == e.compression
        && (three == 0 ==> l.crc == e.crc && l.compressed == e.compressed && l.uncompressed == e.uncompressed))
  {
    if OnlyBits(e.flags, one, two, three, eleven) {
      assert e.flags == 8 * (three + 256 * eleven) + (2 * one + 4 * two);
      assert e.flags / 8 == three + 2 * (128 * eleven);
    }
  }

  /** Why a header is refused: it is short, it has no signature, or else the first of these fields that differs. */
  lemma HeaderRefused(e: ZipEntry, l: Local, rest: Bytes, header: Bytes)
    requires LocalOk(l)
    ensures |header| < 30 + |e.name| <==> DataStart(e, header) == Err(ShortLocalHeader(30 + |e.name|, |header|))
    ensures |header| >= 30 + |e.name| ==>
      (header[..4] != [0x50, 0x4b, 0x03, 0x04] <==> DataStart(e, header) == Err(NoLocalSignature))
    ensures 30 + |l.name| + |rest| >= 30 + |e.name| && !Agrees(e, l) ==>
      DataStart(e, EncodeLocal(l) + rest) == Err(
        if l.flags != e.flags then HeaderMismatch(Flags, e.flags, l.flags)
        else if l.compression != e.compression then HeaderMismatch(Compression, e.compression, l.compression)
        else if |l.name| != |e.name| then HeaderMismatch(NameLength, |e.name|, |l.name|)
        else if l.name != e.name then NameMismatch(l.name)
        else if l.crc != e.crc then HeaderMismatch(Crc, e.crc, l.crc)
        else if l.compressed != e.compressed then HeaderMismatch(CompressedSize, e.compressed, l.compressed)
        else HeaderMismatch(UncompressedSize, e.uncompressed, l.uncompressed))
  {
    hide U16At, U32At, EncodeLocal;
    LocalFields(l, rest);
    LocalSizes(l, rest);
    if |header| >= 4 { assert header[..4] == LOCAL_SIGNATURE <==> StartsWith(header, LOCAL_SIGNATURE); }
  }

  // ---------------------------------------------------------------------------------------------
  // A ranged read from end to end
  // ---------------------------------------------------------------------------------------------

  /** The member's local record and data lie in the archive where its directory entry says. */
  ghost predicate MemberAt(archive: Bytes, e: Central, l: Local, data: Bytes) {
    var z := Reading(e);
    && CentralOk(e) && z.Found? && LocalOk(l) && Agrees(z.entry, l)
    && |data| == e.compressed
    && var start := e.offset + LOCAL_HEADER_LEN + |e.name| + l.extraLen;
       && start + |data| <= |archive|
       && archive[e.offset..e.offset + LOCAL_HEADER_LEN + |e.name|] == EncodeLocal(l)
       && archive[start..start + |data|] == data
  }

  /** `len` bytes of the archive at `offset`, when it has them. */
  function Range(archive: Bytes, offset: nat, len: nat): Option<Bytes> {
    if offset + len <= |archive| then Some(archive[offset..offset + len]) else None
  }

  /** The compressed bytes of an entry, by way of its local header. */
  function EntryBytes(archive: Bytes, e: ZipEntry): Option<Bytes> {
    var header := Range(archive, e.offset, LocalHeaderLen(e));
    if header.None? || DataStart(e, header.value).Err? then None
    else Range(archive, DataStart(e, header.value).value, e.compressed)
  }

  /** The compressed bytes of a member, read range by range from the archive's tail. */
  function MemberBytes(archive: Bytes, tail: Bytes, name: Bytes): Option<Bytes> {
    var span := CentralDirectory(tail, |archive|);
    if span.None? then None else
      var directory := Range(archive, span.value.offset, span.value.len);
      if directory.None? || !Search(directory.value, name).Found? then None
      else EntryBytes(archive, Search(directory.value, name).entry)
  }

  /** Body, central directory and end record, the latter describing the former. */
  ghost predicate LaidOut(archive: Bytes, body: Bytes, directory: Bytes, end: End) {
    && archive == body + directory + EncodeEnd(end)
    && end.offset == |body| && end.size == |directory| && WithinLimits(end, |archive|)
  }

  lemma EntryBytesFound(archive: Bytes, e: Central, l: Local, data: Bytes)
    requires MemberAt(archive, e, l, data)
    ensures EntryBytes(archive, Reading(e).entry) == Some(data)
  {
    hide DataStart, EncodeLocal, Agrees, LocalOk, CentralOk;
    var z := Reading(e).entry;
    var header := archive[z.offset..z.offset + LocalHeaderLen(z)];
    assert header == EncodeLocal(l) + [];
    AgreeingHeader(z, l, []);
  }

  /**
    An archive laid out as body, directory and end record gives up the first member of a name: the tail
    leads to the directory, the directory to the entry, and the local header to the member's bytes.
  */
  lemma RangedRead(archive: Bytes, body: Bytes, before: seq<Central>, e: Central, after: Bytes, end: End, tail: Bytes,
                   l: Local, data: Bytes)
    requires AllOk(before) && CentralOk(e) && NoneNamed(before, e.name)
    requires LaidOut(archive, body, EncodeDirectory(before) + (EncodeCentral(e) + after), end)
    requires |tail| <= |archive| && tail == archive[|archive| - |tail|..] && EndsWith(tail, end)
    requires MemberAt(archive, e, l, data)
    ensures MemberBytes(archive, tail, e.name) == Some(data)
  {
    hide CentralDirectory, Search, EntryBytes, EncodeDirectory, EncodeCentral, EncodeEnd;
    hide EndsWith, AllOk, NoneNamed, CentralOk, MemberAt, WithinLimits;
    var directory := EncodeDirectory(before) + (EncodeCentral(e) + after);
    EndRecovered(tail, |archive|, end);
    assert archive[|body|..|body| + |directory|] == directory;
    FirstEntryDecides(before, e, after);
    FoundWhenMember(archive, e, l, data);
    EntryBytesFound(archive, e, l, data);
  }

  lemma FoundWhenMember(archive: Bytes, e: Central, l: Local, data: Bytes)
    requires MemberAt(archive, e, l, data)
    ensures Reading(e).Found?
  {
  }

  // ---------------------------------------------------------------------------------------------
  // Archives as a writer lays them out
  // ---------------------------------------------------------------------------------------------

  datatype Member = Member(name: Bytes, flags: nat, compression: nat, crc: nat, uncompressed: nat, data: Bytes)

  const VERSION: nat := 20

  predicate Writable(m: Member) {
    && |m.name| <= U16_MAX && Readable(m.flags) && m.compression <= U16_MAX && m.crc <= U32_MAX
    && m.uncompressed < U32_MAX && |m.data| < U32_MAX
  }

  function LocalOf(m: Member): Local {
    Local(VERSION, m.flags, m.compression, 0, 0, m.crc, |m.data|, m.uncompressed, m.name, 0)
  }

  function CentralOf(m: Member, offset: nat): Central {
    Central(VERSION, VERSION, m.flags, m.compression, 0, 0, m.crc, |m.data|, m.uncompressed, 0, 0, 0, offset,
      m.name, [], [])
  }

  function Record(m: Member): Bytes {
    EncodeLocal(LocalOf(m)) + m.data
  }

  function Body(ms: seq<Member>): Bytes {
    if ms == [] then [] else Body(ms[..|ms| - 1]) + Record(ms[|ms| - 1])
  }

  function Entries(ms: seq<Member>): seq<Central> {
    seq(|ms|, i requires 0 <= i < |ms| => CentralOf(ms[i], |Body(ms[..i])|))
  }

  function EndOf(ms: seq<Member>): End {
    End(0, 0, |ms|, |ms|, |EncodeDirectory(Entries(ms))|, |Body(ms)|, [])
  }

  function Archive(ms: seq<Member>): Bytes {
    Body(ms) + EncodeDirectory(Entries(ms)) + EncodeEnd(EndOf(ms))
  }

  /** The members fit a ZIP32 archive whose directory the reader will request. */
  ghost predicate Fits(ms: seq<Member>) {
    && (forall i :: 0 <= i < |ms| ==> Writable(ms[i]))
    && |ms| <= U16_MAX && |Body(ms)| < U32_MAX
    && |EncodeDirectory(Entries(ms))| <= MAX_ZIP_CENTRAL_DIRECTORY_BYTES
  }

  lemma {:induction false} BodyHas(ms: seq<Member>, k: nat)
    requires k < |ms|
    ensures var at := |Body(ms[..k])|;
      at + |Record(ms[k])| <= |Body(ms)| && Body(ms)[at..at + |Record(ms[k])|] == Record(ms[k])
  {
    hide Record;
    if k < |ms| - 1 {
      var front := ms[..|ms| - 1];
      BodyHas(front, k);
      assert front[..k] == ms[..k] && front[k] == ms[k];
      var at := |Body(ms[..k])|;
      assert Body(ms)[at..at + |Record(ms[k])|] == Body(front)[at..at + |Record(ms[k])|];
    }
  }

  lemma {:induction false} DirectoryConcat(a: seq<Central>, b: seq<Central>)
    ensures EncodeDirectory(a + b) == EncodeDirectory(a) + EncodeDirectory(b)
  {
    hide EncodeCentral;
    if a == [] {
      assert a + b == b;
    } else {
      DirectoryConcat(a[1..], b);
      assert (a + b)[0] == a[0] && (a + b)[1..] == a[1..] + b;
      var first, middle, last := EncodeCentral(a[0]), EncodeDirectory(a[1..]), EncodeDirectory(b);
      assert first + (middle + last) == first + middle + last;
    }
  }

  lemma WrittenOk(ms: seq<Member>, k: nat)
    requires Fits(ms) && k < |ms|
    ensures CentralOk(Entries(ms)[k]) && LocalOk(LocalOf(ms[k]))
    ensures Reading(Entries(ms)[k]).Found? && Agrees(Reading(Entries(ms)[k]).entry, LocalOf(ms[k]))
  {
    hide EncodeDirectory, Record;
    BodyHas(ms, k);
    assert Writable(ms[k]);
  }

  lemma Within(s: Bytes, a: nat, b: nat, c: nat, d: nat)
    requires a <= b <= |s| && c <= d <= b - a
    ensures s[a..b][c..d] == s[a + c..a + d]
  {
    var inner, outer := s[a..b][c..d], s[a + c..a + d];
    assert forall i :: 0 <= i < d - c ==> inner[i] == s[a + c + i] && outer[i] == s[a + c + i];
  }

  lemma WrittenMember(ms: seq<Member>, k: nat)
    requires Fits(ms) && k < |ms|
    ensures MemberAt(Archive(ms), Entries(ms)[k], LocalOf(ms[k]), ms[k].data)
  {
    hide EncodeDirectory, EncodeEnd, CentralOk, LocalOk, Agrees, EncodeLocal, Body, Reading;
    WrittenOk(ms, k);
    BodyHas(ms, k);
    var at, l, body := |Body(ms[..k])|, LocalOf(ms[k]), Body(ms);
    var archive := Archive(ms);
    var head := at + LOCAL_HEADER_LEN + |ms[k].name|;
    assert archive[..|body|] == body;
    var next := at + |Record(ms[k])|;
    Within(archive, 0, |body|, at, head);
    Within(archive, 0, |body|, head, next);
    Within(body, at, next, 0, head - at);
    Within(body, at, next, head - at, next - at);
    assert Record(ms[k])[..head - at] == EncodeLocal(l);
    assert Record(ms[k])[head - at..] == ms[k].data;
  }

  lemma WrittenTail(ms: seq<Member>, tail: Bytes)
    requires Fits(ms) && EOCD_LEN <= |tail| <= |Archive(ms)| && tail == Archive(ms)[|Archive(ms)| - |tail|..]
    ensures EndsWith(tail, EndOf(ms)) && WithinLimits(EndOf(ms), |Archive(ms)|)
  {
    hide EncodeDirectory, Body;
    var end := EncodeEnd(EndOf(ms));
    assert |end| == EOCD_LEN;
    assert tail[|tail| - EOCD_LEN..] == Archive(ms)[|Archive(ms)| - EOCD_LEN..] == end;
  }

  /**
    Writing an archive and reading it back by ranges: from any tail that holds the end record, the reader
    reaches the bytes of the first member of each name.
  */
  lemma ArchiveRoundTrip(ms: seq<Member>, k: nat, tail: Bytes)
    requires Fits(ms) && k < |ms| && forall i :: 0 <= i < k ==> ms[i].name != ms[k].name
    requires EOCD_LEN <= |tail| <= |Archive(ms)| && tail == Archive(ms)[|Archive(ms)| - |tail|..]
    ensures MemberBytes(Archive(ms), tail, ms[k].name) == Some(ms[k].data)
  {
    hide MemberBytes, EncodeEnd, EncodeDirectory, Body, Entries, MemberAt, EndsWith, AllOk, NoneNamed, CentralOk, Fits;
    hide EncodeCentral, WithinLimits;
    var all := Entries(ms);
    EntriesOk(ms, k);
    WrittenMember(ms, k);
    WrittenTail(ms, tail);
    DirectorySplit(all, k);
    RangedRead(Archive(ms), Body(ms), all[..k], all[k], EncodeDirectory(all[k + 1..]), EndOf(ms), tail,
      LocalOf(ms[k]), ms[k].data);
  }

  lemma EntriesOk(ms: seq<Member>, k: nat)
    requires Fits(ms) && k < |ms| && forall i :: 0 <= i < k ==> ms[i].name != ms[k].name
    ensures |Entries(ms)| == |ms| && Entries(ms)[k].name == ms[k].name && CentralOk(Entries(ms)[k])
    ensures AllOk(Entries(ms)[..k]) && NoneNamed(Entries(ms)[..k], ms[k].name)
  {
    hide CentralOk, Body, EncodeDirectory;
    forall i | 0 <= i < |ms| ensures CentralOk(Entries(ms)[i]) { WrittenOk(ms, i); }
  }

  lemma DirectorySplit(all: seq<Central>, k: nat)
    requires k < |all|
    ensures EncodeDirectory(all)
      == EncodeDirectory(all[..k]) + (EncodeCentral(all[k]) + EncodeDirectory(all[k + 1..]))
  {
    hide EncodeCentral;
    assert all == all[..k] + all[k..];
    DirectoryConcat(all[..k], all[k..]);
    assert all[k..][1..] == all[k + 1..];
  }

  /** Any one member short of four gibibytes makes an archive that fits. */
  lemma OneMemberFits(m: Member)
    requires Writable(m) && LOCAL_HEADER_LEN + |m.name| + |m.data| < U32_MAX
    ensures Fits([m])
  {
    hide CentralFixed, EncodeLocal;
    assert [m][..0] == [];
    assert Body([m]) == [] + Record(m);
    var entries := Entries([m]);
    assert entries[1..] == [];
    assert EncodeDirectory(entries) == EncodeCentral(entries[0]) + [];
  }

  /** A name no member has is reported missing. */
  lemma ArchiveMissing(ms: seq<Member>, name: Bytes, tail: Bytes)
    requires Fits(ms) && forall i :: 0 <= i < |ms| ==> ms[i].name != name
    requires EOCD_LEN <= |tail| <= |Archive(ms)| && tail == Archive(ms)[|Archive(ms)| - |tail|..]
    ensures MemberBytes(Archive(ms), tail, name) == None
  {
    var all := Entries(ms);
    forall i | 0 <= i < |ms| ensures CentralOk(all[i]) { WrittenOk(ms, i); }
    WrittenTail(ms, tail);
    hide EncodeEnd, Body, EndsWith, CentralOk, EncodeDirectory, CentralDirectory, Search;
    EndRecovered(tail, |Archive(ms)|, EndOf(ms));
    AbsentIsMissing(all, [], name);
    var directory := EncodeDirectory(all);
    assert Archive(ms)[|Body(ms)|..|Body(ms)| + |directory|] == directory == directory + [];
  }
}
