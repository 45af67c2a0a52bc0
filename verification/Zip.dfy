/**
  The ZIP records a ranged reader parses: the end-of-central-directory record, the central directory and
  a local file header (sections 4.3.16, 4.3.12 and 4.3.7 of APPNOTE), with the encodings they come from.
*/
module Zip {
  import opened Utf8

  const EOCD_LEN: nat := 22
  const CENTRAL_ENTRY_LEN: nat := 46
  const LOCAL_HEADER_LEN: nat := 30
  const MAX_ZIP_CENTRAL_DIRECTORY_BYTES: nat := 16 * 1024 * 1024
  const U16_MAX: nat := 0xffff
  const U32_MAX: nat := 0xffff_ffff

  type Bytes = seq<byte>

  const EOCD_SIGNATURE: Bytes := [0x50, 0x4b, 0x05, 0x06]
  const CENTRAL_SIGNATURE: Bytes := [0x50, 0x4b, 0x01, 0x02]
  const LOCAL_SIGNATURE: Bytes := [0x50, 0x4b, 0x03, 0x04]

  // ---------------------------------------------------------------------------------------------
  // Little-endian fields
  // ---------------------------------------------------------------------------------------------

  function U16At(bytes: Bytes, offset: nat): nat
    requires offset + 2 <= |bytes|
  {
    var low: nat, high: nat := bytes[offset], bytes[offset + 1];
    low + 256 * high
  }

  function U32At(bytes: Bytes, offset: nat): nat
    requires offset + 4 <= |bytes|
  {
    U16At(bytes, offset) + 65536 * U16At(bytes, offset + 2)
  }

  /** Byte `i` of a number, lowest first. */
  function Octet(n: nat, i: nat): byte {
    if i == 0 then n % 256 else Octet(n / 256, i - 1)
  }

  function Le16(n: nat): Bytes {
    [Octet(n, 0), Octet(n, 1)]
  }

  function Le32(n: nat): Bytes {
    [Octet(n, 0), Octet(n, 1), Octet(n, 2), Octet(n, 3)]
  }

  lemma Octets16(n: nat)
    requires n <= U16_MAX
    ensures Octet(n, 0) + 256 * Octet(n, 1) == n
  {
    assert Octet(n, 1) == Octet(n / 256, 0);
  }

  lemma Octets32(n: nat)
    requires n <= U32_MAX
    ensures Octet(n, 0) + 256 * Octet(n, 1) + 65536 * Octet(n, 2) + 16777216 * Octet(n, 3) == n
  {
    var a := n / 256;
    var b := a / 256;
    var c := b / 256;
    assert Octet(n, 1) == a % 256;
    assert Octet(n, 2) == Octet(a, 1) == b % 256;
    assert Octet(n, 3) == Octet(a, 2) == Octet(b, 1) == c % 256;
  }

  lemma Bytes16(a: byte, b: byte)
    ensures Le16(a + 256 * b) == [a, b]
  {
    var n: nat := a + 256 * b;
    assert n / 256 == b;
    assert Octet(n, 1) == Octet(n / 256, 0);
  }

  lemma Bytes32(a: byte, b: byte, c: byte, d: byte)
    ensures Le32(a + 256 * b + 65536 * c + 16777216 * d) == [a, b, c, d]
  {
    var n: nat := a + 256 * b + 65536 * c + 16777216 * d;
    var m: nat := b + 256 * c + 65536 * d;
    var k: nat := c + 256 * d;
    assert n == a + 256 * m && n / 256 == m && n % 256 == a;
    assert m == b + 256 * k && m / 256 == k && m % 256 == b;
    assert k / 256 == d && k % 256 == c;
    assert Octet(n, 1) == Octet(m, 0);
    assert Octet(n, 2) == Octet(m, 1) == Octet(k, 0);
    assert Octet(n, 3) == Octet(m, 2) == Octet(k, 1) == Octet(d, 0);
  }

  lemma Write16(bytes: Bytes, offset: nat)
    requires offset + 2 <= |bytes|
    ensures U16At(bytes, offset) <= U16_MAX && Le16(U16At(bytes, offset)) == bytes[offset..offset + 2]
  {
    Bytes16(bytes[offset], bytes[offset + 1]);
  }

  lemma Write32(bytes: Bytes, offset: nat)
    requires offset + 4 <= |bytes|
    ensures U32At(bytes, offset) <= U32_MAX && Le32(U32At(bytes, offset)) == bytes[offset..offset + 4]
  {
    Bytes32(bytes[offset], bytes[offset + 1], bytes[offset + 2], bytes[offset + 3]);
  }

  // ---------------------------------------------------------------------------------------------
  // The records as written
  // ---------------------------------------------------------------------------------------------

  /** A central directory file header. */
  datatype Central = Central(
    made: nat, needed: nat, flags: nat, compression: nat, time: nat, date: nat,
    crc: nat, compressed: nat, uncompressed: nat,
    disk: nat, internalAttributes: nat, externalAttributes: nat, offset: nat,
    name: Bytes, extra: Bytes, comment: Bytes)

  ghost predicate CentralOk(e: Central) {
    && e.made <= U16_MAX && e.needed <= U16_MAX && e.flags <= U16_MAX && e.compression <= U16_MAX
    && e.time <= U16_MAX && e.date <= U16_MAX && e.disk <= U16_MAX && e.internalAttributes <= U16_MAX
    && e.crc <= U32_MAX && e.compressed <= U32_MAX && e.uncompressed <= U32_MAX
    && e.externalAttributes <= U32_MAX && e.offset <= U32_MAX
    && |e.name| <= U16_MAX && |e.extra| <= U16_MAX && |e.comment| <= U16_MAX
  }

  function CentralFixed(e: Central): (r: Bytes)
    ensures |r| == CENTRAL_ENTRY_LEN
  {
    CENTRAL_SIGNATURE + Le16(e.made) + Le16(e.needed)
    + (Le16(e.flags) + Le16(e.compression) + Le16(e.time) + Le16(e.date))
    + (Le32(e.crc) + Le32(e.compressed) + Le32(e.uncompressed))
    + (Le16(|e.name|) + Le16(|e.extra|) + Le16(|e.comment|) + Le16(e.disk) + Le16(e.internalAttributes))
    + (Le32(e.externalAttributes) + Le32(e.offset))
  }

  function EncodeCentral(e: Central): Bytes {
    CentralFixed(e) + (e.name + e.extra + e.comment)
  }

  function EncodeDirectory(entries: seq<Central>): Bytes {
    if entries == [] then [] else EncodeCentral(entries[0]) + EncodeDirectory(entries[1..])
  }

  // ---------------------------------------------------------------------------------------------
  // Searching the central directory
  // ---------------------------------------------------------------------------------------------

  datatype ZipEntry = ZipEntry(
    name: Bytes, flags: nat, compression: nat, crc: nat, compressed: nat, uncompressed: nat, offset: nat)

  datatype ZipEntrySearch = Found(entry: ZipEntry) | Missing | Unsupported | Invalid

  /** No general-purpose bit is set but bits 1, 2, 3 and 11. */
  predicate Readable(flags: nat) {
    flags % 2 == 0 && flags % 2048 < 16 && flags < 4096
  }

  /** `flags` is the sum of some of bits 1, 2, 3 and 11. */
  ghost predicate OnlyBits(flags: nat, one: nat, two: nat, three: nat, eleven: nat) {
    one <= 1 && two <= 1 && three <= 1 && eleven <= 1 && flags == 2 * one + 4 * two + 8 * three + 2048 * eleven
  }

  lemma ReadableBits(flags: nat) returns (one: nat, two: nat, three: nat, eleven: nat)
    requires Readable(flags)
    ensures OnlyBits(flags, one, two, three, eleven)
  {
    eleven := if flags < 2048 then 0 else 1;
    var half := (flags - 2048 * eleven) / 2;
    three := if half < 4 then 0 else 1;
    two := if half - 4 * three < 2 then 0 else 1;
    one := half - 4 * three - 2 * two;
  }

  lemma BitsReadable(flags: nat, one: nat, two: nat, three: nat, eleven: nat)
    requires OnlyBits(flags, one, two, three, eleven)
    ensures Readable(flags)
  {
    assert flags % 2048 == if eleven == 0 then flags else flags - 2048;
    assert flags == 2 * (one + 2 * two + 4 * three + 1024 * eleven);
  }

  lemma ReadableIff(flags: nat)
    ensures Readable(flags) <==>
      exists one: nat, two: nat, three: nat, eleven: nat :: OnlyBits(flags, one, two, three, eleven)
  {
    hide Readable, OnlyBits;
    if Readable(flags) {
      var one, two, three, eleven := ReadableBits(flags);
    }
    if one: nat, two: nat, three: nat, eleven: nat :| OnlyBits(flags, one, two, three, eleven) {
      BitsReadable(flags, one, two, three, eleven);
    }
  }

  /** Beyond this reader: encrypted, masked or reserved flags, or a field that defers to ZIP64. */
  predicate Beyond(flags: nat, compressed: nat, uncompressed: nat, offset: nat) {
    !Readable(flags) || compressed == U32_MAX || uncompressed == U32_MAX || offset == U32_MAX
  }

  predicate StartsWith(bytes: Bytes, prefix: Bytes) {
    prefix <= bytes
  }

  /** Where the record at the head of `d` ends. */
  function HeadEnd(d: Bytes): nat
    requires |d| >= CENTRAL_ENTRY_LEN
  {
    CENTRAL_ENTRY_LEN + U16At(d, 28) + U16At(d, 30) + U16At(d, 32)
  }

  predicate HasHead(d: Bytes) {
    |d| >= CENTRAL_ENTRY_LEN && StartsWith(d, CENTRAL_SIGNATURE) && HeadEnd(d) <= |d|
  }

  /** What the reader makes of the record at the head of `d`, once its name matched. */
  function Verdict(d: Bytes, name: Bytes): ZipEntrySearch
    requires |d| >= CENTRAL_ENTRY_LEN
  {
    if Beyond(U16At(d, 8), U32At(d, 20), U32At(d, 24), U32At(d, 42)) then Unsupported
    else Found(ZipEntry(name, U16At(d, 8), U16At(d, 10), U32At(d, 16), U32At(d, 20), U32At(d, 24), U32At(d, 42)))
  }

  function Search(d: Bytes, name: Bytes): ZipEntrySearch
    decreases |d|
  {
    if |d| < CENTRAL_ENTRY_LEN then Missing
    else if !HasHead(d) then ZipEntrySearch.Invalid
    else if d[CENTRAL_ENTRY_LEN..CENTRAL_ENTRY_LEN + U16At(d, 28)] != name then Search(d[HeadEnd(d)..], name)
    else Verdict(d, name)
  }

  method FindZipEntry(directory: Bytes, name: Bytes) returns (r: ZipEntrySearch)
    ensures r == Search(directory, name)
  {
    var position := 0;
    assert directory[0..] == directory;
    while position + CENTRAL_ENTRY_LEN <= |directory|
      invariant position <= |directory|
      invariant Search(directory[position..], name) == Search(directory, name)
      decreases |directory| - position
    {
      var entry := directory[position..];
      if !StartsWith(entry, CENTRAL_SIGNATURE) { return ZipEntrySearch.Invalid; }
      var nameEnd := position + CENTRAL_ENTRY_LEN + U16At(entry, 28);
      var next := nameEnd + U16At(entry, 30) + U16At(entry, 32);
      if next > |directory| { return ZipEntrySearch.Invalid; }
      assert directory[position + CENTRAL_ENTRY_LEN..nameEnd]
        == entry[CENTRAL_ENTRY_LEN..CENTRAL_ENTRY_LEN + U16At(entry, 28)];
      if directory[position + CENTRAL_ENTRY_LEN..nameEnd] != name {
        assert entry[HeadEnd(entry)..] == directory[next..];
        position := next;
        continue;
      }
      var flags := U16At(entry, 8);
      var compressed := U32At(entry, 20);
      var uncompressed := U32At(entry, 24);
      var offset := U32At(entry, 42);
      if Beyond(flags, compressed, uncompressed, offset) { return Unsupported; }
      return Found(ZipEntry(name, flags, U16At(entry, 10), U32At(entry, 16), compressed, uncompressed, offset));
    }
    r := Missing;
  }

  // ---------------------------------------------------------------------------------------------
  // What the search means for a directory as written
  // ---------------------------------------------------------------------------------------------

  lemma Read16(bytes: Bytes, offset: nat, n: nat)
    requires offset + 2 <= |bytes| && n <= U16_MAX
    requires bytes[offset] == Octet(n, 0) && bytes[offset + 1] == Octet(n, 1)
    ensures U16At(bytes, offset) == n
  {
    Octets16(n);
  }

  lemma Read32(bytes: Bytes, offset: nat, n: nat)
    requires offset + 4 <= |bytes| && n <= U32_MAX
    requires bytes[offset] == Octet(n, 0) && bytes[offset + 1] == Octet(n, 1)
    requires bytes[offset + 2] == Octet(n, 2) && bytes[offset + 3] == Octet(n, 3)
    ensures U32At(bytes, offset) == n
  {
    Octets32(n);
  }

  lemma CentralLengths(e: Central, rest: Bytes)
    requires CentralOk(e)
    ensures var d := EncodeCentral(e) + rest;
      U16At(d, 28) == |e.name| && U16At(d, 30) == |e.extra| && U16At(d, 32) == |e.comment|
      && StartsWith(d, CENTRAL_SIGNATURE)
  {
    hide Octet;
    var d := EncodeCentral(e) + rest;
    var fixed := CentralFixed(e);
    assert forall i :: 0 <= i < CENTRAL_ENTRY_LEN ==> d[i] == fixed[i];
    Read16(d, 28, |e.name|);
    Read16(d, 30, |e.extra|);
    Read16(d, 32, |e.comment|);
  }

  lemma CentralSizes(e: Central, rest: Bytes)
    requires CentralOk(e)
    ensures var d := EncodeCentral(e) + rest;
      U32At(d, 16) == e.crc && U32At(d, 20) == e.compressed && U32At(d, 24) == e.uncompressed
  {
    hide Octet;
    var d := EncodeCentral(e) + rest;
    var fixed := CentralFixed(e);
    assert forall i :: 0 <= i < CENTRAL_ENTRY_LEN ==> d[i] == fixed[i];
    Read32(d, 16, e.crc);
    Read32(d, 20, e.compressed);
    Read32(d, 24, e.uncompressed);
  }

  lemma CentralFields(e: Central, rest: Bytes)
    requires CentralOk(e)
    ensures var d := EncodeCentral(e) + rest;
      U16At(d, 8) == e.flags && U16At(d, 10) == e.compression && U32At(d, 42) == e.offset
  {
    hide Octet;
    var d := EncodeCentral(e) + rest;
    var fixed := CentralFixed(e);
    assert forall i :: 0 <= i < CENTRAL_ENTRY_LEN ==> d[i] == fixed[i];
    Read16(d, 8, e.flags);
    Read16(d, 10, e.compression);
    Read32(d, 42, e.offset);
  }

  /** What the reader should make of an entry. */
  function Reading(e: Central): ZipEntrySearch {
    if Beyond(e.flags, e.compressed, e.uncompressed, e.offset) then Unsupported
    else Found(ZipEntry(e.name, e.flags, e.compression, e.crc, e.compressed, e.uncompressed, e.offset))
  }

  lemma SearchHead(e: Central, rest: Bytes, name: Bytes)
    requires CentralOk(e)
    ensures Search(EncodeCentral(e) + rest, name) == if e.name == name then Reading(e) else Search(rest, name)
  {
    var d := EncodeCentral(e) + rest;
    CentralLengths(e, rest);
    CentralFields(e, rest);
    CentralSizes(e, rest);
    hide CentralFixed, U16At, U32At;
    assert d[CENTRAL_ENTRY_LEN..CENTRAL_ENTRY_LEN + |e.name|] == e.name;
    assert d[HeadEnd(d)..] == rest;
  }

  /** The signatures are the numbers APPNOTE gives them, lowest byte first. */
  lemma SignaturesAre()
    ensures U32At(LOCAL_SIGNATURE, 0) == 0x04034b50 && Le32(0x04034b50) == LOCAL_SIGNATURE
    ensures U32At(CENTRAL_SIGNATURE, 0) == 0x02014b50 && Le32(0x02014b50) == CENTRAL_SIGNATURE
    ensures U32At(EOCD_SIGNATURE, 0) == 0x06054b50 && Le32(0x06054b50) == EOCD_SIGNATURE
  {
    Write32(LOCAL_SIGNATURE, 0);
    Write32(CENTRAL_SIGNATURE, 0);
    Write32(EOCD_SIGNATURE, 0);
  }

  /**
    An entry is beyond the reader exactly when it has a flag other than bits 1, 2, 3 and 11 or a field that defers
    to ZIP64; any other is found with its own fields.
  */
  lemma ReadingIs(e: Central)
    ensures var plain := exists one: nat, two: nat, three: nat, eleven: nat :: OnlyBits(e.flags, one, two, three, eleven);
      var narrow := e.compressed != 0xffff_ffff && e.uncompressed != 0xffff_ffff && e.offset != 0xffff_ffff;
      Reading(e) ==
        if plain && narrow
        then Found(ZipEntry(e.name, e.flags, e.compression, e.crc, e.compressed, e.uncompressed, e.offset))
        else Unsupported
  {
    hide OnlyBits, Readable;
    ReadableIff(e.flags);
  }

  ghost predicate AllOk(entries: seq<Central>) {
    forall i :: 0 <= i < |entries| ==> CentralOk(entries[i])
  }

  ghost predicate NoneNamed(entries: seq<Central>, name: Bytes) {
    forall i :: 0 <= i < |entries| ==> entries[i].name != name
  }

  /** Entries before the name is met are passed over, whatever they hold. */
  lemma {:induction false} SkipOthers(entries: seq<Central>, rest: Bytes, name: Bytes)
    requires AllOk(entries) && NoneNamed(entries, name)
    ensures Search(EncodeDirectory(entries) + rest, name) == Search(rest, name)
  {
    if entries == [] {
      assert EncodeDirectory(entries) + rest == rest;
    } else {
      SkipOthers(entries[1..], rest, name);
      var more := EncodeDirectory(entries[1..]) + rest;
      assert EncodeDirectory(entries) + rest == EncodeCentral(entries[0]) + more;
      SearchHead(entries[0], more, name);
    }
  }

  /** The first entry of that name decides, whatever bytes come after it. */
  lemma FirstEntryDecides(before: seq<Central>, e: Central, rest: Bytes)
    requires AllOk(before) && CentralOk(e) && NoneNamed(before, e.name)
    ensures Search(EncodeDirectory(before) + (EncodeCentral(e) + rest), e.name) == Reading(e)
  {
    SkipOthers(before, EncodeCentral(e) + rest, e.name);
    SearchHead(e, rest, e.name);
  }

  /** A directory without the name is searched to its end; up to 45 stray bytes there are not looked at. */
  lemma AbsentIsMissing(entries: seq<Central>, stray: Bytes, name: Bytes)
    requires AllOk(entries) && NoneNamed(entries, name) && |stray| < CENTRAL_ENTRY_LEN
    ensures Search(EncodeDirectory(entries) + stray, name) == Missing
  {
    SkipOthers(entries, stray, name);
  }

  /** The record at the head of `d`, every field of it. */
  function Head(d: Bytes): Central
    requires HasHead(d)
  {
    var nameEnd := CENTRAL_ENTRY_LEN + U16At(d, 28);
    var extraEnd := nameEnd + U16At(d, 30);
    Central(
      U16At(d, 4), U16At(d, 6), U16At(d, 8), U16At(d, 10), U16At(d, 12), U16At(d, 14),
      U32At(d, 16), U32At(d, 20), U32At(d, 24),
      U16At(d, 34), U16At(d, 36), U32At(d, 38), U32At(d, 42),
      d[CENTRAL_ENTRY_LEN..nameEnd], d[nameEnd..extraEnd], d[extraEnd..HeadEnd(d)])
  }

  lemma Written16(d: Bytes, at: nat)
    requires at + 8 <= |d|
    ensures Le16(U16At(d, at)) + Le16(U16At(d, at + 2)) + Le16(U16At(d, at + 4)) + Le16(U16At(d, at + 6))
      == d[at..at + 8]
    ensures U16At(d, at) <= U16_MAX && U16At(d, at + 2) <= U16_MAX
    ensures U16At(d, at + 4) <= U16_MAX && U16At(d, at + 6) <= U16_MAX
  {
    hide U16At, Le16;
    Write16(d, at);
    Write16(d, at + 2);
    Write16(d, at + 4);
    Write16(d, at + 6);
  }

  lemma Written32(d: Bytes, at: nat)
    requires at + 8 <= |d|
    ensures Le32(U32At(d, at)) + Le32(U32At(d, at + 4)) == d[at..at + 8]
    ensures U32At(d, at) <= U32_MAX && U32At(d, at + 4) <= U32_MAX
  {
    hide U32At, Le32;
    Write32(d, at);
    Write32(d, at + 4);
  }

  lemma WrittenFixed(d: Bytes)
    requires HasHead(d)
    ensures CentralOk(Head(d)) && CentralFixed(Head(d)) == d[..CENTRAL_ENTRY_LEN]
  {
    hide U16At, U32At, Le16, Le32;
    Write16(d, 4);
    Write16(d, 6);
    Written16(d, 8);
    Written32(d, 16);
    Write32(d, 24);
    Written16(d, 28);
    Write16(d, 36);
    Written32(d, 38);
    assert d[..CENTRAL_ENTRY_LEN] == CENTRAL_SIGNATURE + d[4..6] + d[6..8] + d[8..16]
      + (d[16..24] + d[24..28]) + (d[28..36] + d[36..38]) + d[38..46];
  }

  /** Whatever the reader takes for a record is the encoding of one. */
  lemma HeadIsWritten(d: Bytes)
    requires HasHead(d)
    ensures CentralOk(Head(d)) && d == EncodeCentral(Head(d)) + d[HeadEnd(d)..]
  {
    WrittenFixed(d);
    hide CentralFixed, U16At, U32At;
    var e := Head(d);
    assert d == d[..CENTRAL_ENTRY_LEN] + (e.name + e.extra + e.comment) + d[HeadEnd(d)..];
  }

  /** How a search may end, for any bytes at all. */
  ghost predicate Explains(d: Bytes, name: Bytes, before: seq<Central>, rest: Bytes) {
    && AllOk(before) && NoneNamed(before, name) && d == EncodeDirectory(before) + rest
    && match Search(d, name)
       case Missing => |rest| < CENTRAL_ENTRY_LEN
       case Invalid => |rest| >= CENTRAL_ENTRY_LEN && !HasHead(rest)
       case _ => HasHead(rest) && Head(rest).name == name && Search(d, name) == Reading(Head(rest))
  }

  /**
    Every search of every input ends at an entry of that name with no earlier one, at the end of a
    well-formed directory without it, or at the first bytes that are not a record.
  */
  lemma {:induction false} SearchExplained(d: Bytes, name: Bytes) returns (before: seq<Central>, rest: Bytes)
    ensures Explains(d, name, before, rest)
    decreases |d|
  {
    hide HasHead, Head, HeadEnd, EncodeCentral, Reading, EncodeDirectory, AllOk, NoneNamed;
    SearchStep(d, name);
    if HasHead(d) && Head(d).name != name {
      HeadIsWritten(d);
      HeadMoves(d);
      before, rest := SearchExplained(d[HeadEnd(d)..], name);
      ExplainedBefore(Head(d), before, rest, name);
      before := [Head(d)] + before;
    } else {
      before, rest := [], d;
      NothingBefore(d, name);
    }
  }

  lemma HeadMoves(d: Bytes)
    requires HasHead(d)
    ensures 0 < HeadEnd(d) <= |d|
  {
  }

  lemma NothingBefore(d: Bytes, name: Bytes)
    ensures AllOk([]) && NoneNamed([], name) && EncodeDirectory([]) + d == d
  {
  }

  lemma SearchStep(d: Bytes, name: Bytes)
    ensures |d| < CENTRAL_ENTRY_LEN ==> Search(d, name) == Missing && !HasHead(d)
    ensures |d| >= CENTRAL_ENTRY_LEN && !HasHead(d) ==> Search(d, name) == ZipEntrySearch.Invalid
    ensures HasHead(d) && Head(d).name == name ==>
      Search(d, name) == Reading(Head(d)) && (Search(d, name).Found? || Search(d, name).Unsupported?)
    ensures HasHead(d) && Head(d).name != name ==> Search(d, name) == Search(d[HeadEnd(d)..], name)
  {
    if HasHead(d) {
      HeadIsWritten(d);
      SearchHead(Head(d), d[HeadEnd(d)..], name);
    }
  }

  lemma ExplainedBefore(e: Central, before: seq<Central>, rest: Bytes, name: Bytes)
    requires CentralOk(e) && e.name != name && AllOk(before) && NoneNamed(before, name)
    ensures AllOk([e] + before) && NoneNamed([e] + before, name)
    ensures EncodeDirectory([e] + before) + rest == EncodeCentral(e) + (EncodeDirectory(before) + rest)
  {
    assert ([e] + before)[1..] == before;
  }

  // ---------------------------------------------------------------------------------------------
  // Missing from a directory that is not well formed
  // ---------------------------------------------------------------------------------------------

  ghost predicate Absent(d: Bytes, name: Bytes, entries: seq<Central>, stray: Bytes) {
    AllOk(entries) && NoneNamed(entries, name) && |stray| < CENTRAL_ENTRY_LEN && d == EncodeDirectory(entries) + stray
  }

  ghost predicate IsDirectory(d: Bytes) {
    exists entries :: AllOk(entries) && d == EncodeDirectory(entries)
  }

  lemma MissingIff(d: Bytes, name: Bytes)
    ensures Search(d, name) == Missing <==> exists entries, stray :: Absent(d, name, entries, stray)
  {
    hide AllOk, NoneNamed, EncodeDirectory, Search;
    if Search(d, name) == Missing {
      var entries, stray := SearchExplained(d, name);
      assert Absent(d, name, entries, stray);
    }
    if entries, stray :| Absent(d, name, entries, stray) {
      AbsentIsMissing(entries, stray, name);
    }
  }

  /** A record is cut off the same way whatever follows it. */
  lemma SameFirst(e: Central, f: Central, x: Bytes, y: Bytes)
    requires CentralOk(e) && CentralOk(f) && EncodeCentral(e) + x == EncodeCentral(f) + y
    ensures x == y
  {
    CentralLengths(e, x);
    CentralLengths(f, y);
    hide CentralFixed, U16At;
    assert x == (EncodeCentral(e) + x)[|EncodeCentral(e)|..];
    assert y == (EncodeCentral(f) + y)[|EncodeCentral(f)|..];
  }

  lemma {:induction false} NoStray(entries: seq<Central>, stray: Bytes, others: seq<Central>)
    requires AllOk(entries) && AllOk(others) && |stray| < CENTRAL_ENTRY_LEN
    requires EncodeDirectory(entries) + stray == EncodeDirectory(others)
    ensures stray == []
    decreases |entries|
  {
    hide EncodeCentral, CentralOk;
    LongEnough(entries);
    LongEnough(others);
    if entries != [] {
      var x, y := EncodeDirectory(entries[1..]) + stray, EncodeDirectory(others[1..]);
      assert EncodeCentral(entries[0]) + x == EncodeCentral(others[0]) + y;
      SameFirst(entries[0], others[0], x, y);
      NoStray(entries[1..], stray, others[1..]);
    }
  }

  lemma LongEnough(entries: seq<Central>)
    ensures entries != [] ==> |EncodeDirectory(entries)| >= CENTRAL_ENTRY_LEN
  {
    hide CentralFixed;
  }

  /** A name is reported missing from bytes that are no directory exactly when one to 45 stray bytes end them. */
  lemma MissingDespiteIff(d: Bytes, name: Bytes)
    ensures Search(d, name) == Missing && !IsDirectory(d) <==>
      exists entries, stray :: Absent(d, name, entries, stray) && stray != []
  {
    hide AllOk, NoneNamed, EncodeDirectory, Search;
    MissingIff(d, name);
    if entries, stray :| Absent(d, name, entries, stray) && stray != [] {
      if others :| AllOk(others) && d == EncodeDirectory(others) { NoStray(entries, stray, others); }
    }
    if entries, stray :| Absent(d, name, entries, stray) && stray == [] {
      assert EncodeDirectory(entries) + [] == EncodeDirectory(entries);
    }
  }

  /** One stray byte. */
  lemma StrayByteMissing(name: Bytes)
    ensures Search([0], name) == Missing && !IsDirectory([0])
  {
    if entries :| AllOk(entries) && EncodeDirectory(entries) == [0] { LongEnough(entries); }
  }
}
