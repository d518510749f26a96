/** The v0.9 snapshot writer and the layout rules a reader follows. */
module Snapshots {
  import opened Bytes
  import opened Options
  import Binary
  import Crc
  import CrcBytes

  const MAGIC := 0x494D5053
  const VERSION := 9
  const PAGE := 4096
  const CHECKSUM_AT := 0x3E
  const TIMESTAMP := 1700000000000

  /** What a snapshot without relations carries: the string pool and each domain's name offset. */
  datatype Catalog = Catalog(pool: seq<byte>, nameOffsets: seq<nat>)

  // ---- Reading ----

  /** The unsigned little-endian field of n bytes at `at`, if the data is long enough. */
  function Field(data: seq<byte>, at: nat, n: nat): Option<nat> {
    if at + n <= |data| then Some(FromLe(Slice(data, at, n))) else None
  }

  /** The checksum stored in the header matches the bytes before it. */
  predicate ChecksumHolds(file: seq<byte>) {
    && |file| >= CHECKSUM_AT + 2
    && CrcBytes.Cells(FromLe(Slice(file, CHECKSUM_AT, 2)), 16)
       == Crc.Checksum(CrcBytes.MessageBits(file[..CHECKSUM_AT]))
  }

  /** Where the domain records start: after the pool, at the next multiple of 128 in the file. */
  function CatalogStart(poolBytes: nat): nat {
    RoundUp(PAGE + 4 + poolBytes, 128)
  }

  /** The name offset in the 16-byte record of domain i, if that record is in bounds and well formed. */
  function ReadDomain(file: seq<byte>, start: nat, i: nat): Option<nat> {
    var at := start + 16 * i;
    if Field(file, at, 2) == Some(i) && Field(file, at + 2, 1) == Some(3) && Field(file, at + 3, 1) == Some(0)
       && Field(file, at + 8, 8) == Some(0)
    then Field(file, at + 4, 4)
    else None
  }

  function ReadDomains(file: seq<byte>, start: nat, count: nat): Option<seq<nat>> {
    if count == 0 then Some([])
    else
      match (ReadDomains(file, start, count - 1), ReadDomain(file, start, count - 1))
      case (Some(before), Some(offset)) => Some(before + [offset])
      case _ => None
  }

  /** The fixed header fields, whole pages, and a checksum that holds. */
  predicate HeaderHolds(file: seq<byte>) {
    && Field(file, 0, 4) == Some(MAGIC)
    && Field(file, 4, 2) == Some(VERSION)
    && Field(file, 6, 4) == Some(PAGE)
    && Field(file, 12, 2) == Some(0)
    && ChecksumHolds(file)
  }

  function ReadCatalog(file: seq<byte>, count: nat, poolBytes: nat): Option<Catalog> {
    if PAGE + 4 + poolBytes > |file| then None
    else
      match ReadDomains(file, CatalogStart(poolBytes), count)
      case Some(offsets) => Some(Catalog(Slice(file, PAGE + 4, poolBytes), offsets))
      case None => None
  }

  /** Reads a snapshot by the format rules, rejecting anything that breaks them. */
  function Read(file: seq<byte>): Option<Catalog> {
    if !HeaderHolds(file) || |file| % PAGE != 0 then None
    else
      match (Field(file, 10, 2), Field(file, PAGE, 4))
      case (Some(count), Some(poolBytes)) => ReadCatalog(file, count, poolBytes)
      case _ => None
  }

  // ---- Writing ----

  /** A growing byte buffer. */
  class Buffer {
    var bytes: seq<byte>

    constructor ()
      ensures bytes == []
    {
      bytes := [];
    }

    method Extend(s: seq<byte>)
      modifies this
      ensures bytes == old(bytes) + s
    {
      bytes := bytes + s;
    }

    /** Pads with zero bytes to the next multiple of align. */
    method Align(align: nat)
      requires align > 0
      modifies this
      ensures bytes == Aligned(old(bytes), align)
    {
      var rem := |bytes| % align;
      if rem != 0 {
        bytes := bytes + ZeroBytes(align - rem);
      }
    }
  }

  /** struct.pack_into with a little-endian format of n bytes, right after the bytes packed so far. */
  method PackInto(buf: array<byte>, at: nat, v: nat, n: nat, ghost before: seq<byte>)
    requires at + n <= buf.Length
    requires buf[..at] == before
    modifies buf
    ensures buf[..at + n] == before + Le(v, n)
    ensures forall i :: at + n <= i < buf.Length ==> buf[i] == old(buf[i])
  {
    var field := Le(v, n);
    for i := 0 to n
      invariant buf[..at] == before
      invariant buf[at..at + i] == field[..i]
      invariant forall j :: at + i <= j < buf.Length ==> buf[j] == old(buf[j])
    {
      buf[at + i] := field[i];
    }
    assert buf[..at + n] == buf[..at] + buf[at..at + n];
  }

  /** The 62 header bytes that the checksum covers. */
  function HeaderPrefix(domains: nat): (h: seq<byte>)
    ensures |h| == CHECKSUM_AT
  {
    HeaderWords(domains) + Le(TIMESTAMP, 8) + Le(1, 8) + ZeroBytes(32)
  }

  function HeaderWords(domains: nat): (h: seq<byte>)
    ensures |h| == 14
  {
    Le(MAGIC, 4) + Le(VERSION, 2) + Le(PAGE, 4) + Le(domains, 2) + Le(0, 2)
  }

  method PackWords(hdr: array<byte>, domains: nat)
    requires hdr.Length == PAGE
    modifies hdr
    ensures hdr[..14] == HeaderWords(domains)
    ensures forall i :: 14 <= i < PAGE ==> hdr[i] == old(hdr[i])
  {
    PackInto(hdr, 0, MAGIC, 4, []);
    PackInto(hdr, 4, VERSION, 2, Le(MAGIC, 4));
    PackInto(hdr, 6, PAGE, 4, Le(MAGIC, 4) + Le(VERSION, 2));
    PackInto(hdr, 10, domains, 2, Le(MAGIC, 4) + Le(VERSION, 2) + Le(PAGE, 4));
    PackInto(hdr, 12, 0, 2, Le(MAGIC, 4) + Le(VERSION, 2) + Le(PAGE, 4) + Le(domains, 2));
  }

  /** The 4096-byte header page, checksummed over its first 62 bytes. */
  method BuildHeader(domains: nat) returns (page: seq<byte>)
    ensures |page| == PAGE
    ensures page[..CHECKSUM_AT] == HeaderPrefix(domains)
    ensures ChecksumHolds(page)
    ensures forall i :: CHECKSUM_AT + 2 <= i < PAGE ==> page[i] == 0
  {
    var hdr := new byte[PAGE](_ => 0);
    PackWords(hdr, domains);
    PackInto(hdr, 14, TIMESTAMP, 8, HeaderWords(domains));
    PackInto(hdr, 22, 1, 8, HeaderWords(domains) + Le(TIMESTAMP, 8));
    assert forall i :: 30 <= i < PAGE ==> hdr[i] == 0;
    assert hdr[30..CHECKSUM_AT] == ZeroBytes(32);
    assert hdr[..CHECKSUM_AT] == hdr[..30] + hdr[30..CHECKSUM_AT];
    var checksum := CrcBytes.Crc16(hdr[..CHECKSUM_AT]);
    PackInto(hdr, CHECKSUM_AT, checksum, 2, HeaderPrefix(domains));
    page := hdr[..];
    ChecksumStored(page, HeaderPrefix(domains), checksum);
  }

  lemma {:induction false} ChecksumStored(page: seq<byte>, prefix: seq<byte>, checksum: nat)
    requires |page| == PAGE && |prefix| == CHECKSUM_AT
    requires page[..CHECKSUM_AT + 2] == prefix + Le(checksum, 2)
    requires checksum < Binary.Pow2(16)
    requires CrcBytes.Cells(checksum, 16) == Crc.Checksum(CrcBytes.MessageBits(prefix))
    ensures page[..CHECKSUM_AT] == prefix
    ensures ChecksumHolds(page)
  {
    Binary.Pow2Values();
    Pow256Values();
    FromLeLe(checksum, 2);
    assert page[..CHECKSUM_AT] == page[..CHECKSUM_AT + 2][..CHECKSUM_AT];
    assert Slice(page, CHECKSUM_AT, 2) == page[..CHECKSUM_AT + 2][CHECKSUM_AT..];
  }

  /** One domain record: struct.pack("<HBBIQ", i, 3, 0, name_off, 0). */
  function DomainRecord(i: nat, nameOffset: nat): (r: seq<byte>)
    ensures |r| == 16
  {
    Le(i, 2) + Le(3, 1) + Le(0, 1) + Le(nameOffset, 4) + Le(0, 8)
  }

  function DomainRecords(offsets: seq<nat>): (r: seq<byte>)
    ensures |r| == 16 * |offsets|
  {
    if offsets == [] then []
    else DomainRecords(offsets[..|offsets| - 1]) + DomainRecord(|offsets| - 1, offsets[|offsets| - 1])
  }

  /** The values struct.pack accepts: every field fits its format. */
  predicate Packable(c: Catalog) {
    && |c.pool| < 0x1_0000_0000
    && |c.nameOffsets| < 0x1_0000
    && forall i :: 0 <= i < |c.nameOffsets| ==> c.nameOffsets[i] < 0x1_0000_0000
  }

  /** The string table: pool length, pool, padding to 128. */
  function StringTable(pool: seq<byte>): seq<byte> {
    Aligned(Le(|pool|, 4) + pool, 128)
  }

  /** The directory section, whose alignment is relative to its own start. */
  function Directory(c: Catalog): seq<byte> {
    Aligned(StringTable(c.pool) + DomainRecords(c.nameOffsets), PAGE)
  }

  method BuildDirectory(c: Catalog) returns (section: seq<byte>)
    ensures section == Directory(c)
  {
    var dir := new Buffer();
    dir.Extend(Le(|c.pool|, 4));
    dir.Extend(c.pool);
    assert dir.bytes == Le(|c.pool|, 4) + c.pool;
    dir.Align(128);
    AppendRecords(dir, c.nameOffsets);
    dir.Align(PAGE);
    section := dir.bytes;
  }

  method AppendRecords(dir: Buffer, offsets: seq<nat>)
    modifies dir
    ensures dir.bytes == old(dir.bytes) + DomainRecords(offsets)
  {
    for i := 0 to |offsets|
      invariant dir.bytes == old(dir.bytes) + DomainRecords(offsets[..i])
    {
      RecordsNext(offsets, i);
      ghost var earlier := DomainRecords(offsets[..i]);
      var record := DomainRecord(i, offsets[i]);
      dir.Extend(record);
      assert (old(dir.bytes) + earlier) + record == old(dir.bytes) + (earlier + record);
    }
    assert offsets[..|offsets|] == offsets;
  }

  lemma RecordsNext(offsets: seq<nat>, i: nat)
    requires i < |offsets|
    ensures DomainRecords(offsets[..i + 1]) == DomainRecords(offsets[..i]) + DomainRecord(i, offsets[i])
  {
    assert offsets[..i + 1][..i] == offsets[..i];
  }

  // ---- Reading back what was written ----

  lemma {:induction false} FieldOf(data: seq<byte>, at: nat, v: nat, n: nat, before: seq<byte>, after: seq<byte>)
    requires data == before + Le(v, n) + after && at == |before|
    requires v < Pow256(n)
    ensures Field(data, at, n) == Some(v)
  {
    assert Slice(data, at, n) == Le(v, n);
    FromLeLe(v, n);
  }

  /** A field that lies inside one part of the data reads as it does in that part alone. */
  lemma FieldWithin(data: seq<byte>, start: nat, part: seq<byte>, at: nat, n: nat)
    requires start + |part| <= |data| && Slice(data, start, |part|) == part
    requires at + n <= |part|
    ensures Field(data, start + at, n) == Field(part, at, n)
  {
    SliceSlice(data, start, |part|, at, n);
  }

  lemma HeaderFields(domains: nat)
    requires domains < 0x1_0000
    ensures var h := HeaderWords(domains);
            && Field(h, 0, 4) == Some(MAGIC) && Field(h, 4, 2) == Some(VERSION) && Field(h, 6, 4) == Some(PAGE)
            && Field(h, 10, 2) == Some(domains) && Field(h, 12, 2) == Some(0)
  {
    Pow256Values();
    var h := HeaderWords(domains);
    FieldOf(h, 0, MAGIC, 4, [], h[4..]);
    FieldOf(h, 4, VERSION, 2, h[..4], h[6..]);
    FieldOf(h, 6, PAGE, 4, h[..6], h[10..]);
    FieldOf(h, 10, domains, 2, h[..10], h[12..]);
    FieldOf(h, 12, 0, 2, h[..12], []);
  }

  lemma RecordFields(i: nat, nameOffset: nat)
    requires i < 0x1_0000 && nameOffset < 0x1_0000_0000
    ensures var r := DomainRecord(i, nameOffset);
            && Field(r, 0, 2) == Some(i) && Field(r, 2, 1) == Some(3) && Field(r, 3, 1) == Some(0)
            && Field(r, 4, 4) == Some(nameOffset) && Field(r, 8, 8) == Some(0)
  {
    Pow256Values();
    var r := DomainRecord(i, nameOffset);
    FieldOf(r, 0, i, 2, [], r[2..]);
    FieldOf(r, 2, 3, 1, r[..2], r[3..]);
    FieldOf(r, 3, 0, 1, r[..3], r[4..]);
    FieldOf(r, 4, nameOffset, 4, r[..4], r[8..]);
    FieldOf(r, 8, 0, 8, r[..8], []);
  }

  lemma {:induction false} RecordAt(offsets: seq<nat>, i: nat)
    requires i < |offsets|
    ensures Slice(DomainRecords(offsets), 16 * i, 16) == DomainRecord(i, offsets[i])
  {
    var n := |offsets| - 1;
    var init, last := DomainRecords(offsets[..n]), DomainRecord(n, offsets[n]);
    if i < n {
      RecordAt(offsets[..n], i);
      SliceLeft(init, last, 16 * i, 16);
    } else {
      SliceRight(init, last, 16 * i, 16);
    }
  }

  /** A record that reads back at the front of its own bytes reads back where the file holds them. */
  lemma RecordReadsBack(file: seq<byte>, start: nat, i: nat, nameOffset: nat)
    requires i < 0x1_0000 && nameOffset < 0x1_0000_0000
    requires start + 16 * i + 16 <= |file|
    requires Slice(file, start + 16 * i, 16) == DomainRecord(i, nameOffset)
    ensures ReadDomain(file, start, i) == Some(nameOffset)
  {
    RecordIsSaid(file, start + 16 * i, i, nameOffset);
  }

  /** Domain i's record reads back wherever the whole record array sits in the file. */
  lemma {:induction false} DomainReadsBack(file: seq<byte>, start: nat, offsets: seq<nat>, i: nat)
    requires i < |offsets| < 0x1_0000 && offsets[i] < 0x1_0000_0000
    requires start + 16 * |offsets| <= |file|
    requires Slice(file, start, 16 * |offsets|) == DomainRecords(offsets)
    ensures ReadDomain(file, start, i) == Some(offsets[i])
  {
    RecordAt(offsets, i);
    SliceSlice(file, start, 16 * |offsets|, 16 * i, 16);
    RecordReadsBack(file, start, i, offsets[i]);
  }

  lemma {:induction false} DomainsReadBack(file: seq<byte>, start: nat, offsets: seq<nat>, n: nat)
    requires n <= |offsets| < 0x1_0000
    requires forall i :: 0 <= i < |offsets| ==> offsets[i] < 0x1_0000_0000
    requires start + 16 * |offsets| <= |file|
    requires Slice(file, start, 16 * |offsets|) == DomainRecords(offsets)
    ensures ReadDomains(file, start, n) == Some(offsets[..n])
    decreases n
  {
    if n > 0 {
      DomainsReadBack(file, start, offsets, n - 1);
      DomainReadsBack(file, start, offsets, n - 1);
      assert offsets[..n] == offsets[..n - 1] + [offsets[n - 1]];
    }
  }

  /** Aligning within the section aligns in the file, since the section starts on a page. */
  lemma AlignedInFile(n: nat)
    ensures RoundUp(PAGE + n, 128) == PAGE + RoundUp(n, 128)
  {
    assert (PAGE + n) % 128 == n % 128;
  }

  /** Where the parts of the directory section lie. */
  lemma DirectoryParts(c: Catalog)
    ensures var d, records := Directory(c), RoundUp(4 + |c.pool|, 128);
            && records + 16 * |c.nameOffsets| <= |d|
            && 4 + |c.pool| <= records
            && |d| % PAGE == 0
            && Slice(d, 0, 4 + |c.pool|) == Le(|c.pool|, 4) + c.pool
            && Slice(d, records, 16 * |c.nameOffsets|) == DomainRecords(c.nameOffsets)
  {
    var head := Le(|c.pool|, 4) + c.pool;
    var table := StringTable(c.pool);
    RoundUpIs(|head|, 128);
    var full := table + DomainRecords(c.nameOffsets);
    RoundUpIs(|full|, PAGE);
    var pad := ZeroBytes(RoundUp(|full|, PAGE) - |full|);
    SliceLeft(full, pad, 0, |head|);
    SliceLeft(table, DomainRecords(c.nameOffsets), 0, |head|);
    SliceLeft(full, pad, |table|, 16 * |c.nameOffsets|);
    SliceRight(table, DomainRecords(c.nameOffsets), |table|, 16 * |c.nameOffsets|);
  }

  /** Every well-formed page followed by the directory reads back as the catalog. */
  lemma ReadBack(c: Catalog, page: seq<byte>, section: seq<byte>)
    requires Packable(c)
    requires |page| == PAGE && page[..CHECKSUM_AT] == HeaderPrefix(|c.nameOffsets|) && ChecksumHolds(page)
    requires section == Directory(c)
    ensures Read(page + section) == Some(c)
    ensures |page + section| % PAGE == 0
  {
    HeaderReadsBack(|c.nameOffsets|, page, section);
    PoolReadsBack(c, page, section);
    CatalogReadsBack(c, page, section);
    WholePages(c, page, section);
    ReadIs(page + section, |c.nameOffsets|, |c.pool|);
  }

  lemma ReadIs(file: seq<byte>, count: nat, poolBytes: nat)
    requires HeaderHolds(file) && |file| % PAGE == 0
    requires Field(file, 10, 2) == Some(count) && Field(file, PAGE, 4) == Some(poolBytes)
    ensures Read(file) == ReadCatalog(file, count, poolBytes)
  {
  }

  lemma SectionPages(c: Catalog)
    ensures |Directory(c)| % PAGE == 0
  {
    DirectoryParts(c);
  }

  lemma OnePageMore(page: seq<byte>, section: seq<byte>)
    requires |page| == 4096 && |section| % 4096 == 0
    ensures |page + section| % 4096 == 0
  {
  }

  lemma WholePages(c: Catalog, page: seq<byte>, section: seq<byte>)
    requires |page| == PAGE && section == Directory(c)
    ensures |page + section| % PAGE == 0
  {
    SectionPages(c);
    OnePageMore(page, section);
  }

  lemma CatalogReadsBack(c: Catalog, page: seq<byte>, section: seq<byte>)
    requires Packable(c) && |page| == PAGE && section == Directory(c)
    ensures ReadCatalog(page + section, |c.nameOffsets|, |c.pool|) == Some(c)
  {
    var count := |c.nameOffsets|;
    DirectoryParts(c);
    AlignedInFile(4 + |c.pool|);
    var start := CatalogStart(|c.pool|);
    SliceRight(page, section, start, 16 * count);
    DomainsReadBack(page + section, start, c.nameOffsets, count);
    assert c.nameOffsets[..count] == c.nameOffsets;
    PoolReadsBack(c, page, section);
  }

  lemma HeaderReadsBack(count: nat, page: seq<byte>, section: seq<byte>)
    requires count < 0x1_0000
    requires |page| == PAGE && page[..CHECKSUM_AT] == HeaderPrefix(count) && ChecksumHolds(page)
    ensures var file := page + section;
            HeaderHolds(file) && Field(file, 10, 2) == Some(count)
  {
    var file, h := page + section, HeaderWords(count);
    HeaderFields(count);
    assert Slice(file, 0, 14) == page[..CHECKSUM_AT][..14];
    assert HeaderPrefix(count)[..14] == h;
    FieldWithin(file, 0, h, 0, 4);
    FieldWithin(file, 0, h, 4, 2);
    FieldWithin(file, 0, h, 6, 4);
    FieldWithin(file, 0, h, 10, 2);
    FieldWithin(file, 0, h, 12, 2);
    assert Slice(file, CHECKSUM_AT, 2) == Slice(page, CHECKSUM_AT, 2);
    assert file[..CHECKSUM_AT] == page[..CHECKSUM_AT];
  }

  lemma PoolReadsBack(c: Catalog, page: seq<byte>, section: seq<byte>)
    requires Packable(c) && |page| == PAGE && section == Directory(c)
    ensures PAGE + 4 + |c.pool| <= |page + section|
    ensures Field(page + section, PAGE, 4) == Some(|c.pool|)
    ensures Slice(page + section, PAGE + 4, |c.pool|) == c.pool
  {
    var head := Le(|c.pool|, 4) + c.pool;
    DirectoryParts(c);
    Pow256Values();
    SliceRight(page, section, PAGE, |head|);
    FieldOf(head, 0, |c.pool|, 4, [], c.pool);
    FieldWithin(page + section, PAGE, head, 0, 4);
    SliceSlice(page + section, PAGE, |head|, 4, |c.pool|);
    SliceRight(Le(|c.pool|, 4), c.pool, 4, |c.pool|);
  }

  // ---- The file by the format's own numbers ----

  /** The header fields at their offsets, and zeros elsewhere around the checksum at 62. */
  ghost predicate HeaderSays(file: seq<byte>, domains: nat) {
    && |file| >= 4096
    && Field(file, 0, 4) == Some(0x494D5053) && Field(file, 4, 2) == Some(9) && Field(file, 6, 4) == Some(4096)
    && Field(file, 10, 2) == Some(domains) && Field(file, 12, 2) == Some(0)
    && Field(file, 14, 8) == Some(1700000000000) && Field(file, 22, 8) == Some(1)
    && forall i :: 30 <= i < 62 || 64 <= i < 4096 ==> file[i] == 0
  }

  /** Domain ID, key type 3, a zero byte, name offset, node count 0. */
  ghost predicate RecordSays(file: seq<byte>, at: nat, i: nat, nameOffset: nat) {
    && Field(file, at, 2) == Some(i) && Field(file, at + 2, 1) == Some(3) && Field(file, at + 3, 1) == Some(0)
    && Field(file, at + 4, 4) == Some(nameOffset) && Field(file, at + 8, 8) == Some(0)
  }

  ghost predicate RecordsSay(file: seq<byte>, start: nat, nameOffsets: seq<nat>) {
    forall i :: 0 <= i < |nameOffsets| ==> RecordSays(file, start + 16 * i, i, nameOffsets[i])
  }

  ghost predicate ZerosSay(file: seq<byte>, pool: nat, start: nat, end: nat) {
    forall i :: pool <= i < start || end <= i < |file| ==> 0 <= i < |file| && file[i] == 0
  }

  /** Pool length and pool on page 1, then the records from the next multiple of 128 on, zero-filled to whole pages. */
  ghost predicate DirectorySays(file: seq<byte>, c: Catalog) {
    var start := 4096 + (4 + |c.pool| + 127) / 128 * 128;
    var end := start + 16 * |c.nameOffsets|;
    && Field(file, 4096, 4) == Some(|c.pool|)
    && |file| == (end + 4095) / 4096 * 4096
    && file[4100..4100 + |c.pool|] == c.pool
    && RecordsSay(file, start, c.nameOffsets) && ZerosSay(file, 4100 + |c.pool|, start, end)
  }

  lemma HeaderTail(page: seq<byte>, domains: nat)
    requires |page| >= CHECKSUM_AT && page[..CHECKSUM_AT] == HeaderPrefix(domains)
    ensures Field(page, 14, 8) == Some(1700000000000) && Field(page, 22, 8) == Some(1)
    ensures forall i :: 30 <= i < 62 ==> page[i] == 0
  {
    Pow256Values();
    var h := HeaderPrefix(domains);
    FieldOf(h, 14, TIMESTAMP, 8, h[..14], h[22..]);
    FieldOf(h, 22, 1, 8, h[..22], h[30..]);
    FieldWithin(page, 0, h, 14, 8);
    FieldWithin(page, 0, h, 22, 8);
    forall i | 30 <= i < 62 ensures page[i] == 0 {
      assert page[..CHECKSUM_AT][i] == h[i];
    }
  }

  lemma HeaderIsSaid(page: seq<byte>, section: seq<byte>, domains: nat)
    requires domains < 0x1_0000
    requires |page| == PAGE && page[..CHECKSUM_AT] == HeaderPrefix(domains) && ChecksumHolds(page)
    requires forall i :: CHECKSUM_AT + 2 <= i < PAGE ==> page[i] == 0
    ensures HeaderSays(page + section, domains)
  {
    var file := page + section;
    HeaderReadsBack(domains, page, section);
    assert file[..CHECKSUM_AT] == page[..CHECKSUM_AT];
    HeaderTail(file, domains);
    forall i | 64 <= i < 4096 ensures file[i] == 0 {
      assert file[i] == page[i];
    }
  }

  lemma RoundUpPage(n: nat)
    ensures RoundUp(n, 4096) == (n + 4095) / 4096 * 4096
  {
  }

  lemma RoundUpLine(n: nat)
    ensures RoundUp(n, 128) == (n + 127) / 128 * 128
  {
  }

  lemma RecordIsSaid(file: seq<byte>, at: nat, i: nat, nameOffset: nat)
    requires i < 0x1_0000 && nameOffset < 0x1_0000_0000
    requires at + 16 <= |file| && Slice(file, at, 16) == DomainRecord(i, nameOffset)
    ensures RecordSays(file, at, i, nameOffset)
  {
    var r := DomainRecord(i, nameOffset);
    RecordFields(i, nameOffset);
    FieldWithin(file, at, r, 0, 2);
    FieldWithin(file, at, r, 2, 1);
    FieldWithin(file, at, r, 3, 1);
    FieldWithin(file, at, r, 4, 4);
    FieldWithin(file, at, r, 8, 8);
  }

  lemma {:induction false} RecordsAreSaid(file: seq<byte>, start: nat, offsets: seq<nat>, i: nat)
    requires i < |offsets| < 0x1_0000 && offsets[i] < 0x1_0000_0000
    requires start + 16 * |offsets| <= |file| && Slice(file, start, 16 * |offsets|) == DomainRecords(offsets)
    ensures RecordSays(file, start + 16 * i, i, offsets[i])
  {
    RecordAt(offsets, i);
    SliceSlice(file, start, 16 * |offsets|, 16 * i, 16);
    RecordIsSaid(file, start + 16 * i, i, offsets[i]);
  }

  /** Padding is zeros: x, zeros to a line, y, zeros to a page. */
  lemma PaddedZeros(x: seq<byte>, y: seq<byte>, d: seq<byte>)
    requires d == Aligned(Aligned(x, 128) + y, 4096)
    ensures var start := (|x| + 127) / 128 * 128;
            && |d| == (start + |y| + 4095) / 4096 * 4096 >= start + |y| >= |x| + |y|
            && forall i :: |x| <= i < start || start + |y| <= i < |d| ==> d[i] == 0
  {
    RoundUpLine(|x|);
    RoundUpPage(|Aligned(x, 128) + y|);
  }

  lemma RecordsOfDirectory(c: Catalog, page: seq<byte>, section: seq<byte>, start: nat)
    requires Packable(c) && |page| == PAGE && section == Directory(c)
    requires start == 4096 + (4 + |c.pool| + 127) / 128 * 128
    ensures RecordsSay(page + section, start, c.nameOffsets)
  {
    DirectoryParts(c);
    RoundUpLine(4 + |c.pool|);
    SliceRight(page, section, start, 16 * |c.nameOffsets|);
    forall i | 0 <= i < |c.nameOffsets| ensures RecordSays(page + section, start + 16 * i, i, c.nameOffsets[i]) {
      RecordsAreSaid(page + section, start, c.nameOffsets, i);
    }
  }

  lemma PageMore(n: nat)
    ensures (4096 + n + 4095) / 4096 * 4096 == 4096 + (n + 4095) / 4096 * 4096
  {
  }

  /** Zeros of the section are zeros of the file, one page later. */
  lemma ShiftedZeros(page: seq<byte>, section: seq<byte>, from: nat, to: nat)
    requires |page| == 4096 && from <= to <= |section|
    requires forall i :: from <= i < to ==> section[i] == 0
    ensures forall i :: 4096 + from <= i < 4096 + to ==> (page + section)[i] == 0
  {
    forall i | 4096 + from <= i < 4096 + to ensures (page + section)[i] == 0 {
      assert (page + section)[i] == section[i - 4096];
    }
  }

  /** The size of the section and its padding; `used` bytes of it come before the padding at its end. */
  lemma ZerosOfSection(c: Catalog, section: seq<byte>, records: nat, used: nat)
    requires section == Directory(c) && records == (4 + |c.pool| + 127) / 128 * 128
    requires used == records + 16 * |c.nameOffsets|
    ensures 4 + |c.pool| <= records && used <= |section| == (used + 4095) / 4096 * 4096
    ensures forall i :: 4 + |c.pool| <= i < records || used <= i < |section| ==> section[i] == 0
  {
    PaddedZeros(Le(|c.pool|, 4) + c.pool, DomainRecords(c.nameOffsets), section);
  }

  /** The size of the file and its padding. */
  lemma ZerosOfDirectory(c: Catalog, page: seq<byte>, section: seq<byte>, start: nat, end: nat)
    requires |page| == PAGE && section == Directory(c)
    requires start == 4096 + (4 + |c.pool| + 127) / 128 * 128 && end == start + 16 * |c.nameOffsets|
    ensures |page + section| == (end + 4095) / 4096 * 4096
    ensures ZerosSay(page + section, 4100 + |c.pool|, start, end)
  {
    ZerosOfSection(c, section, start - 4096, end - 4096);
    PageMore(end - 4096);
    ShiftedZeros(page, section, 4 + |c.pool|, start - 4096);
    ShiftedZeros(page, section, end - 4096, |section|);
  }

  lemma DirectoryIsSaid(c: Catalog, page: seq<byte>, section: seq<byte>)
    requires Packable(c) && |page| == PAGE && section == Directory(c)
    ensures DirectorySays(page + section, c)
  {
    var start := 4096 + (4 + |c.pool| + 127) / 128 * 128;
    PoolReadsBack(c, page, section);
    ZerosOfDirectory(c, page, section, start, start + 16 * |c.nameOffsets|);
    RecordsOfDirectory(c, page, section, start);
  }

  /** Header page and directory; None where struct.pack would raise. */
  method BuildSnapshot(c: Catalog) returns (file: Option<seq<byte>>)
    ensures file.Some? <==> && |c.pool| < 0x1_0000_0000 && |c.nameOffsets| < 0x1_0000
                            && forall i :: 0 <= i < |c.nameOffsets| ==> c.nameOffsets[i] < 0x1_0000_0000
    ensures file.Some? ==> Read(file.value) == Some(c)
    ensures file.Some? ==> |file.value| % PAGE == 0
    ensures file.Some? ==> HeaderSays(file.value, |c.nameOffsets|) && DirectorySays(file.value, c)
    ensures file.Some? ==> file.value[..CHECKSUM_AT] == HeaderPrefix(|c.nameOffsets|)
  {
    if !Packable(c) {
      return None;
    }
    var page := BuildHeader(|c.nameOffsets|);
    var section := BuildDirectory(c);
    ReadBack(c, page, section);
    HeaderIsSaid(page, section, |c.nameOffsets|);
    DirectoryIsSaid(c, page, section);
    file := Some(page + section);
    assert (page + section)[..CHECKSUM_AT] == page[..CHECKSUM_AT];
  }

  /** Damage to one or two neighbouring bytes of the checksummed header makes the reader reject the file. */
  lemma DamagedHeaderRejected(file: seq<byte>, damaged: seq<byte>, i: nat)
    requires ChecksumHolds(file) && |damaged| == |file|
    requires damaged[CHECKSUM_AT..] == file[CHECKSUM_AT..]
    requires damaged[..CHECKSUM_AT] != file[..CHECKSUM_AT]
    requires forall j :: 0 <= j < CHECKSUM_AT && damaged[j] != file[j] ==> i <= j <= i + 1
    ensures Read(damaged) == None
  {
    CrcBytes.NeighbouringBytesDetected(file[..CHECKSUM_AT], damaged[..CHECKSUM_AT], i);
    assert Slice(damaged, CHECKSUM_AT, 2) == damaged[CHECKSUM_AT..][..2];
    assert Slice(file, CHECKSUM_AT, 2) == file[CHECKSUM_AT..][..2];
  }
}
