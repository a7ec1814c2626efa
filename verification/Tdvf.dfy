/** TDVF firmware metadata: finding, reading and checking the section table. */
module Tdvf {
  import opened Common
  import opened Sequences
  import opened Guids

  const PAGE_SIZE := 0x1000
  const MAX_TDVF_SECTIONS := 64
  const MAX_MEASURED_PAGES := 0x1_0000
  const SECTION_SIZE := 32
  const SECTION_TD_HOB: Word32 := 0x02
  const SECTION_TEMP_MEM: Word32 := 0x03

  /** e47a6535-984a-4798-865e-4685a7bf8ec2 and 96b582de-1fb2-45f7-baea-a366c55a082d. */
  const METADATA_GUID: ByteString :=
    [0x35, 0x65, 0x7a, 0xe4, 0x4a, 0x98, 0x98, 0x47, 0x86, 0x5e, 0x46, 0x85, 0xa7, 0xbf, 0x8e, 0xc2]
  const FOOTER_GUID: ByteString :=
    [0xde, 0x82, 0xb5, 0x96, 0xb2, 0x1f, 0xf7, 0x45, 0xba, 0xea, 0xa3, 0x66, 0xc5, 0x5a, 0x08, 0x2d]
  /** "TDVF" */
  const SIGNATURE: ByteString := [0x54, 0x44, 0x56, 0x46]

  /** The identifiers in the firmware's tables, and the signature of the descriptor. */
  lemma TableIdentifiers()
    ensures EncodeGuid(Guid("e47a6535", "984a", "4798", "865e", "4685a7bf8ec2")) == Ok(METADATA_GUID)
    ensures EncodeGuid(Guid("96b582de", "1fb2", "45f7", "baea", "a366c55a082d")) == Ok(FOOTER_GUID)
    ensures SIGNATURE == ['T' as int, 'D' as int, 'V' as int, 'F' as int]
  {
    hide EncodeGuid, Guid;
    MetadataGuid();
    FooterGuid();
  }

  lemma MetadataGuid()
    ensures EncodeGuid(Guid("e47a6535", "984a", "4798", "865e", "4685a7bf8ec2")) == Ok(METADATA_GUID)
  {
    hide EncodeGuid, Guid;
    SpelledGuid("e47a6535", "984a", "4798", "865e", "4685a7bf8ec2", METADATA_GUID);
  }

  lemma FooterGuid()
    ensures EncodeGuid(Guid("96b582de", "1fb2", "45f7", "baea", "a366c55a082d")) == Ok(FOOTER_GUID)
  {
    hide EncodeGuid, Guid;
    SpelledGuid("96b582de", "1fb2", "45f7", "baea", "a366c55a082d", FOOTER_GUID);
  }

  datatype Section = Section(
    dataOffset: Word32,
    rawDataSize: Word32,
    memoryAddress: Word64,
    memoryDataSize: Word64,
    secType: Word32,
    attributes: Word32)

  /** ATTRIBUTE_MR_EXTEND, bit 0. */
  predicate MrExtend(s: Section) {
    s.attributes % 2 == 1
  }

  /** ATTRIBUTE_PAGE_AUG, bit 1. */
  predicate PageAug(s: Section) {
    s.attributes / 2 % 2 == 1
  }

  function PageCount(s: Section): nat {
    s.memoryDataSize / PAGE_SIZE
  }

  /** How many firmware bytes measuring the section may read. */
  function MeasuredSize(s: Section): nat {
    if MrExtend(s) then s.memoryDataSize else s.rawDataSize
  }

  // ----- the section table -----

  /** The per-section checks; the source's later test that the raw size does not exceed
      the memory size repeats the first one. */
  predicate WellFormed(s: Section, fwLen: nat) {
    && s.memoryAddress % PAGE_SIZE == 0
    && s.rawDataSize <= s.memoryDataSize
    && s.memoryDataSize % PAGE_SIZE == 0
    && s.dataOffset + MeasuredSize(s) < U64
    && s.dataOffset + MeasuredSize(s) <= fwLen
    && s.memoryAddress + s.memoryDataSize < U64
  }

  /** The checks in numbers: whole pages at a page address below 2^64, no more raw bytes than memory,
      and the bytes that are measured (all of the memory if MR_EXTEND, bit 0, is set) in the firmware. */
  lemma SectionLimits(s: Section, fwLen: nat)
    requires fwLen < 0x1_0000_0000_0000_0000
    ensures WellFormed(s, fwLen) <==>
            && s.memoryAddress % 4096 == 0 && s.memoryDataSize % 4096 == 0 && s.rawDataSize <= s.memoryDataSize
            && s.memoryAddress + s.memoryDataSize < 0x1_0000_0000_0000_0000
            && (if s.attributes % 2 == 1 then s.dataOffset + s.memoryDataSize <= fwLen
                else s.dataOffset + s.rawDataSize <= fwLen)
  {
  }

  function TotalPages(sections: seq<Section>): nat {
    if sections == [] then 0
    else TotalPages(sections[..|sections| - 1]) + PageCount(sections[|sections| - 1])
  }

  /** What every parsed table satisfies. */
  predicate ValidTable(fw: ByteString, sections: seq<Section>) {
    && |sections| <= MAX_TDVF_SECTIONS
    && (forall s :: s in sections ==> WellFormed(s, |fw|))
    && TotalPages(sections) <= MAX_MEASURED_PAGES
  }

  function SectionBytes(s: Section): (b: ByteString)
    ensures |b| == SECTION_SIZE
  {
    Le(s.dataOffset, 4) + Le(s.rawDataSize, 4) + Le(s.memoryAddress, 8) + Le(s.memoryDataSize, 8)
    + Le(s.secType, 4) + Le(s.attributes, 4)
  }

  function Read32(b: ByteString, at: nat): Word32
    requires at + 4 <= |b|
  {
    FromLeBound(b[at..at + 4]);
    WordSizes();
    FromLe(b[at..at + 4])
  }

  lemma Read32Is(b: ByteString, at: nat)
    requires at + 4 <= |b|
    ensures Read32(b, at) == FromLe(b[at..at + 4])
  {
  }

  function Read64(b: ByteString, at: nat): Word64
    requires at + 8 <= |b|
  {
    FromLeBound(b[at..at + 8]);
    WordSizes();
    FromLe(b[at..at + 8])
  }

  function DecodeSection(b: ByteString): Section
    requires |b| == SECTION_SIZE
  {
    Section(Read32(b, 0), Read32(b, 4), Read64(b, 8), Read64(b, 16), Read32(b, 24), Read32(b, 28))
  }

  /** The section records from `at` on; `pages` counts the pages of the ones before. */
  function ParseSections(fw: ByteString, at: nat, count: nat, pages: nat): Result<seq<Section>>
    decreases count
  {
    if count == 0 then Ok([])
    else if at + SECTION_SIZE > |fw| then Err
    else
      var s := DecodeSection(fw[at..at + SECTION_SIZE]);
      if !WellFormed(s, |fw|) || pages + PageCount(s) > MAX_MEASURED_PAGES then Err
      else
        var rest :- ParseSections(fw, at + SECTION_SIZE, count - 1, pages + PageCount(s));
        Ok([s] + rest)
  }

  /** Walks the GUIDed table backwards; the data of the metadata entry, if there is one.
      `tables` starts 18 bytes before the table, so 18 remaining bytes mean its end. */
  function FindEntry(tables: ByteString): (r: Result<ByteString>)
    ensures r.Ok? ==> |r.value| >= 18
    decreases |tables|
  {
    var end := |tables|;
    if end <= 18 then Err
    else
      var entryLen := FromLe(tables[end - 18..end - 16]);
      if entryLen < 18 || entryLen > end - 18 then Err
      else if tables[end - 16..] == METADATA_GUID then Ok(tables[end - 18 - entryLen..end - 18])
      else FindEntry(tables[..end - entryLen])
  }

  /** The offset of the TDVF descriptor. */
  function MetadataOffset(fw: ByteString): (r: Result<nat>)
    ensures r.Ok? ==> r.value <= |fw|
  {
    if |fw| < 50 then Err
    else
      var end := |fw| - 32;
      if fw[end - 16..end] != FOOTER_GUID then Err
      else
        var tablesLen := FromLe(fw[end - 18..end - 16]);
        if tablesLen == 0 || tablesLen > end - 18 then Err
        else
          var data :- FindEntry(fw[end - 18 - tablesLen..end - 18]);
          var fromEnd := FromLe(data[|data| - 4..]);
          if fromEnd > |fw| then Err else Ok(|fw| - fromEnd)
  }

  function ParseTable(fw: ByteString): Result<seq<Section>> {
    var at :- MetadataOffset(fw);
    if at + 16 > |fw| || fw[at..at + 4] != SIGNATURE || Read32(fw, at + 8) != 1
       || Read32(fw, at + 12) > MAX_TDVF_SECTIONS then Err
    else ParseSections(fw, at + 16, Read32(fw, at + 12), 0)
  }

  /** The backwards walk as the source runs it, with a decreasing offset. */
  method WalkTable(tables: ByteString) returns (r: Result<ByteString>)
    ensures r == FindEntry(tables)
  {
    hide FromLe;
    var offset := |tables|;
    assert tables[..offset] == tables;
    while offset > 18
      invariant 0 <= offset <= |tables|
      invariant FindEntry(tables[..offset]) == FindEntry(tables)
      decreases offset
    {
      var t := tables[..offset];
      var guid := tables[offset - 16..offset];
      var entryLen := FromLe(tables[offset - 18..offset - 16]);
      assert t[offset - 16..] == guid && t[offset - 18..offset - 16] == tables[offset - 18..offset - 16];
      if entryLen < 18 || entryLen > offset - 18 {
        return Err;
      }
      if guid == METADATA_GUID {
        assert t[offset - 18 - entryLen..offset - 18] == tables[offset - 18 - entryLen..offset - 18];
        return Ok(tables[offset - 18 - entryLen..offset - 18]);
      }
      assert t[..offset - entryLen] == tables[..offset - entryLen];
      offset := offset - entryLen;
    }
    return Err;
  }

  /** `Tdvf::parse`: total, terminating, and exactly `ParseTable`. */
  method Parse(fw: ByteString) returns (r: Result<seq<Section>>)
    ensures r == ParseTable(fw)
    ensures r.Ok? ==> ValidTable(fw, r.value)
  {
    ParseTableValid(fw);
    hide FindEntry, ParseSections, ValidTable, FromLe;
    if |fw| < 32 {
      return Err;
    }
    var offset := |fw| - 32;
    if offset < 16 {
      return Err;
    }
    if offset < 18 || fw[offset - 16..offset] != FOOTER_GUID {
      return Err;
    }
    var tablesLen := FromLe(fw[offset - 18..offset - 16]);
    if tablesLen == 0 || tablesLen > offset - 18 {
      return Err;
    }
    var data :- WalkTable(fw[offset - 18 - tablesLen..offset - 18]);
    var fromEnd := FromLe(data[|data| - 4..]);
    if fromEnd > |fw| {
      return Err;
    }
    var at := |fw| - fromEnd;
    if at + 16 > |fw| || fw[at..at + 4] != SIGNATURE || Read32(fw, at + 8) != 1 {
      return Err;
    }
    var count := Read32(fw, at + 12);
    if count > MAX_TDVF_SECTIONS {
      return Err;
    }
    r := ParseRecords(fw, at + 16, count);
  }

  method ParseRecords(fw: ByteString, at: nat, count: nat) returns (r: Result<seq<Section>>)
    ensures r == ParseSections(fw, at, count, 0)
  {
    hide DecodeSection, WellFormed, PageCount;
    var sections: seq<Section> := [];
    var totalPages := 0;
    PrependNothing(ParseSections(fw, at, count, 0));
    for i := 0 to count
      invariant totalPages >= 0
      invariant Prepend(sections, ParseSections(fw, at + 32 * i, count - i, totalPages))
                == ParseSections(fw, at, count, 0)
    {
      var secOffset := at + 32 * i;
      if secOffset + SECTION_SIZE > |fw| {
        return Err;
      }
      var s := DecodeSection(fw[secOffset..secOffset + SECTION_SIZE]);
      if !WellFormed(s, |fw|) {
        return Err;
      }
      PrependStep(sections, s, ParseSections(fw, secOffset + SECTION_SIZE, count - i - 1, totalPages + PageCount(s)));
      totalPages := totalPages + PageCount(s);
      if totalPages > MAX_MEASURED_PAGES {
        return Err;
      }
      sections := sections + [s];
    }
    assert sections + [] == sections;
    return Ok(sections);
  }

  function Prepend(a: seq<Section>, r: Result<seq<Section>>): Result<seq<Section>> {
    if r.Ok? then Ok(a + r.value) else Err
  }

  lemma PrependNothing(r: Result<seq<Section>>)
    ensures Prepend([], r) == r
  {
    if r.Ok? {
      assert [] + r.value == r.value;
    }
  }

  lemma PrependStep(a: seq<Section>, s: Section, r: Result<seq<Section>>)
    ensures Prepend(a + [s], r) == Prepend(a, Prepend([s], r))
  {
    if r.Ok? {
      assert a + [s] + r.value == a + ([s] + r.value);
    }
  }

  lemma {:induction false} ParseSectionsValid(fw: ByteString, at: nat, count: nat, pages: nat)
    requires pages <= MAX_MEASURED_PAGES
    ensures var r := ParseSections(fw, at, count, pages);
            r.Ok? ==> |r.value| == count && pages + TotalPages(r.value) <= MAX_MEASURED_PAGES
                      && forall s :: s in r.value ==> WellFormed(s, |fw|)
    decreases count
  {
    hide DecodeSection, WellFormed, PageCount;
    if count > 0 && at + SECTION_SIZE <= |fw| {
      var s := DecodeSection(fw[at..at + SECTION_SIZE]);
      if WellFormed(s, |fw|) && pages + PageCount(s) <= MAX_MEASURED_PAGES {
        ParseSectionsValid(fw, at + SECTION_SIZE, count - 1, pages + PageCount(s));
        var rest := ParseSections(fw, at + SECTION_SIZE, count - 1, pages + PageCount(s));
        if rest.Ok? {
          TotalPagesFirst(s, rest.value);
        }
      }
    }
  }

  lemma {:induction false} TotalPagesFirst(s: Section, rest: seq<Section>)
    ensures TotalPages([s] + rest) == PageCount(s) + TotalPages(rest)
  {
    hide PageCount;
    if rest == [] {
      assert [s] + rest == [s];
      assert [s][..0] == [];
    } else {
      var init := rest[..|rest| - 1];
      TotalPagesFirst(s, init);
      assert ([s] + rest)[..|rest|] == [s] + init;
    }
  }

  /** A parsed table has at most 64 sections and 65536 pages. */
  lemma TableLimits(fw: ByteString)
    ensures ParseTable(fw).Ok? ==> |ParseTable(fw).value| <= 64 && TotalPages(ParseTable(fw).value) <= 65536
  {
    hide ParseTable;
    ParseTableValid(fw);
  }

  lemma ParseTableValid(fw: ByteString)
    ensures ParseTable(fw).Ok? ==> ValidTable(fw, ParseTable(fw).value)
  {
    hide MetadataOffset, ParseSections, Read32, WellFormed, TotalPages;
    var at := MetadataOffset(fw);
    if at.Ok? && at.value + 16 <= |fw| {
      ParseSectionsValid(fw, at.value + 16, Read32(fw, at.value + 12), 0);
    }
  }

  // ----- every firmware laid out this way parses to its sections -----

  datatype Entry = Entry(data: ByteString, guid: ByteString)

  function EntryBytes(e: Entry): ByteString {
    e.data + Le(|e.data| + 18, 2) + e.guid
  }

  predicate OtherEntry(e: Entry) {
    |e.guid| == 16 && e.guid != METADATA_GUID && |e.data| + 18 < U16
  }

  function DescriptorBytes(length: Word32, count: Word32): (b: ByteString)
    ensures |b| == 16
  {
    SIGNATURE + Le(length, 4) + Le(1, 4) + Le(count, 4)
  }

  /** The table: anything first, then the metadata entry, then entries of other kinds. */
  function TableBytes(early: ByteString, fromEnd: nat, later: seq<Entry>): ByteString {
    early + EntryBytes(Entry(Le(fromEnd, 4), METADATA_GUID)) + FlatMap(later, EntryBytes)
  }

  /** Everything before the table: payload, descriptor, section records, and a gap. */
  function BodyBytes(payload: ByteString, length: Word32, sections: seq<Section>, gap: ByteString): ByteString
    requires |sections| < U32
  {
    payload + DescriptorBytes(length, |sections|) + FlatMap(sections, SectionBytes) + gap
  }

  function FirmwareBytes(body: ByteString, table: ByteString, reset: ByteString): ByteString {
    body + table + Le(|table| + 18, 2) + FOOTER_GUID + reset
  }

  lemma EntrySlices(t: ByteString, e: Entry)
    requires |e.guid| == 16 && |e.data| + 18 < U16
    ensures var u := t + EntryBytes(e);
            |u| == |t| + |e.data| + 18 && u[|u| - 16..] == e.guid
            && FromLe(u[|u| - 18..|u| - 16]) == |e.data| + 18
            && u[..|u| - (|e.data| + 18)] == t && u[|u| - 18 - |e.data|..|u| - 18] == e.data
  {
    hide Le, FromLe, Pow256;
    WordSizes();
    LeRoundTrip(|e.data| + 18, 2);
    var u := t + EntryBytes(e);
    assert u[|u| - 18..|u| - 16] == Le(|e.data| + 18, 2);
  }

  lemma SkipEntry(t: ByteString, e: Entry)
    requires |t| >= 18 && OtherEntry(e)
    ensures FindEntry(t + EntryBytes(e)) == FindEntry(t)
  {
    hide EntryBytes, FromLe;
    EntrySlices(t, e);
  }

  lemma {:induction false} SkipEntries(t: ByteString, later: seq<Entry>)
    requires |t| >= 18 && forall e :: e in later ==> OtherEntry(e)
    ensures FindEntry(t + FlatMap(later, EntryBytes)) == FindEntry(t)
    decreases |later|
  {
    hide EntryBytes, FindEntry, OtherEntry;
    if later == [] {
      assert t + [] == t;
    } else {
      var init, last := later[..|later| - 1], later[|later| - 1];
      SkipEntries(t, init);
      SkipEntry(t + FlatMap(init, EntryBytes), last);
      assert t + FlatMap(later, EntryBytes) == t + FlatMap(init, EntryBytes) + EntryBytes(last);
    }
  }

  lemma FoundEntry(t: ByteString, fromEnd: Word32)
    requires |t| >= 18
    ensures var r := FindEntry(t + EntryBytes(Entry(Le(fromEnd, 4), METADATA_GUID)));
            r.Ok? && FromLe(r.value[|r.value| - 4..]) == fromEnd
  {
    hide Le, FromLe, EntryBytes, Pow256;
    var e := Entry(Le(fromEnd, 4), METADATA_GUID);
    var u := t + EntryBytes(e);
    EntrySlices(t, e);
    WordSizes();
    LeRoundTrip(fromEnd, 4);
    var data := u[|u| - 18 - 22..|u| - 18];
    assert FindEntry(u) == Ok(data);
    assert data[18..] == u[|u| - 22..|u| - 18];
  }

  lemma {:induction false} RecordsParse(fw: ByteString, at: nat, sections: seq<Section>, pages: nat)
    requires at + 32 * |sections| <= |fw|
    requires fw[at..at + 32 * |sections|] == FlatMap(sections, SectionBytes)
    requires forall s :: s in sections ==> WellFormed(s, |fw|)
    requires pages + TotalPages(sections) <= MAX_MEASURED_PAGES
    ensures ParseSections(fw, at, |sections|, pages) == Ok(sections)
    decreases |sections|
  {
    hide SectionBytes, DecodeSection, WellFormed, PageCount, FlatMap;
    if sections != [] {
      var s, rest := sections[0], sections[1..];
      assert sections == [s] + rest;
      TotalPagesFirst(s, rest);
      FlatMapSplit([s], rest, SectionBytes);
      FlatMapOne(s, SectionBytes);
      FlatMapLength(rest, SectionBytes, 32);
      var all := fw[at..at + 32 * |sections|];
      assert all[..SECTION_SIZE] == fw[at..at + SECTION_SIZE] == SectionBytes(s);
      assert all[SECTION_SIZE..] == fw[at + SECTION_SIZE..at + SECTION_SIZE + 32 * |rest|];
      SectionReadsBack(s);
      RecordsParse(fw, at + SECTION_SIZE, rest, pages + PageCount(s));
    }
  }

  lemma SectionSlices(s: Section)
    ensures var b := SectionBytes(s);
            && b[0..4] == Le(s.dataOffset, 4) && b[4..8] == Le(s.rawDataSize, 4)
            && b[8..16] == Le(s.memoryAddress, 8) && b[16..24] == Le(s.memoryDataSize, 8)
            && b[24..28] == Le(s.secType, 4) && b[28..32] == Le(s.attributes, 4)
  {
    hide Le;
    var a, b, c := Le(s.dataOffset, 4), Le(s.rawDataSize, 4), Le(s.memoryAddress, 8);
    var d, e, f := Le(s.memoryDataSize, 8), Le(s.secType, 4), Le(s.attributes, 4);
    assert SectionBytes(s) == a + b + c + d + e + f;
    SixParts(a, b, c, d, e, f);
  }

  lemma SixParts(a: ByteString, b: ByteString, c: ByteString, d: ByteString, e: ByteString, f: ByteString)
    requires |a| == 4 && |b| == 4 && |c| == 8 && |d| == 8 && |e| == 4 && |f| == 4
    ensures var all := a + b + c + d + e + f;
            && all[0..4] == a && all[4..8] == b && all[8..16] == c
            && all[16..24] == d && all[24..28] == e && all[28..32] == f
  {
    FourFields(a, b, c, d);
    var four := a + b + c + d;
    SliceOfBack(four, e, 24, 28);
    SliceOfBack(four + e, f, 28, 32);
    SliceOfFront(four + e, f, 24, 28);
    Within(four, e, f, 0, 4);
    Within(four, e, f, 4, 8);
    Within(four, e, f, 8, 16);
    Within(four, e, f, 16, 24);
  }

  lemma FourFields(a: ByteString, b: ByteString, c: ByteString, d: ByteString)
    requires |a| == 4 && |b| == 4 && |c| == 8 && |d| == 8
    ensures var all := a + b + c + d; all[0..4] == a && all[4..8] == b && all[8..16] == c && all[16..24] == d
  {
    SliceOfBack(a + b + c, d, 16, 24);
    SliceOfBack(a + b, c, 8, 16);
    SliceOfFront(a + b + c, d, 8, 16);
    SliceOfBack(a, b, 4, 8);
    Within(a + b, c, d, 4, 8);
    SliceOfBack([], a, 0, 4);
    assert [] + a == a;
    SliceOfFront(a, b, 0, 4);
    Within(a + b, c, d, 0, 4);
  }

  lemma Within(a: ByteString, b: ByteString, c: ByteString, i: nat, j: nat)
    requires i <= j <= |a|
    ensures (a + b + c)[i..j] == a[i..j]
  {
    SliceOfFront(a + b, c, i, j);
    SliceOfFront(a, b, i, j);
  }

  lemma SectionReadsBack(s: Section)
    ensures DecodeSection(SectionBytes(s)) == s
  {
    hide Le, FromLe, Pow256, SectionBytes;
    SectionSlices(s);
    WordSizes();
    LeRoundTrip(s.dataOffset, 4);
    LeRoundTrip(s.rawDataSize, 4);
    LeRoundTrip(s.memoryAddress, 8);
    LeRoundTrip(s.memoryDataSize, 8);
    LeRoundTrip(s.secType, 4);
    LeRoundTrip(s.attributes, 4);
  }

  /** Where the pieces of a laid-out image sit. */
  lemma FirmwareSlices(body: ByteString, table: ByteString, reset: ByteString)
    requires |body| >= 18 && |reset| == 32 && |table| + 18 < U16
    ensures var fw, n := FirmwareBytes(body, table, reset), |body| + |table|;
            |fw| == n + 50 && fw[n + 2..n + 18] == FOOTER_GUID
            && FromLe(fw[n..n + 2]) == |table| + 18 && fw[|body| - 18..n] == body[|body| - 18..] + table
            && fw[..|body|] == body
  {
    hide Le, FromLe, Pow256;
    WordSizes();
    LeRoundTrip(|table| + 18, 2);
    var fw, n := FirmwareBytes(body, table, reset), |body| + |table|;
    assert fw[n..n + 2] == Le(|table| + 18, 2);
  }

  lemma TableFound(t: ByteString, early: ByteString, fromEnd: Word32, later: seq<Entry>)
    requires |t| >= 18 && forall e :: e in later ==> OtherEntry(e)
    ensures var r := FindEntry(t + TableBytes(early, fromEnd, later));
            r.Ok? && FromLe(r.value[|r.value| - 4..]) == fromEnd
  {
    hide FindEntry, EntryBytes, FromLe, FlatMap, OtherEntry;
    var meta := EntryBytes(Entry(Le(fromEnd, 4), METADATA_GUID));
    FoundEntry(t + early, fromEnd);
    SkipEntries(t + early + meta, later);
    Assoc(t, early, meta);
    Assoc(t, early + meta, FlatMap(later, EntryBytes));
  }

  lemma BodySlices(payload: ByteString, length: Word32, sections: seq<Section>, gap: ByteString, fw: ByteString)
    requires |sections| < U32
    requires BodyBytes(payload, length, sections, gap) <= fw
    ensures var at := |payload|;
            at + 16 + 32 * |sections| <= |fw|
            && fw[at..at + 16] == DescriptorBytes(length, |sections|)
            && fw[at + 16..at + 16 + 32 * |sections|] == FlatMap(sections, SectionBytes)
  {
    hide SectionBytes, FlatMap, DescriptorBytes, BodyBytes;
    BodyParts(payload, length, sections, gap);
    RecordsLength(sections);
    FourParts(
      payload, DescriptorBytes(length, |sections|), FlatMap(sections, SectionBytes), gap, fw, 16, 32 * |sections|);
  }

  lemma BodyParts(payload: ByteString, length: Word32, sections: seq<Section>, gap: ByteString)
    requires |sections| < U32
    ensures BodyBytes(payload, length, sections, gap)
            == payload + DescriptorBytes(length, |sections|) + FlatMap(sections, SectionBytes) + gap
    ensures |DescriptorBytes(length, |sections|)| == 16
  {
    hide SectionBytes, FlatMap;
  }

  lemma RecordsLength(sections: seq<Section>)
    ensures |FlatMap(sections, SectionBytes)| == 32 * |sections|
  {
    hide SectionBytes, FlatMap;
    FlatMapLength(sections, SectionBytes, 32);
  }

  lemma DescriptorFields(fw: ByteString, at: nat, length: Word32, count: Word32)
    requires at + 16 <= |fw| && fw[at..at + 16] == DescriptorBytes(length, count)
    ensures fw[at..at + 4] == SIGNATURE && Read32(fw, at + 8) == 1 && Read32(fw, at + 12) == count
  {
    hide DescriptorBytes, FromLe, Read32;
    var d := DescriptorBytes(length, count);
    DescriptorSlices(length, count);
    SubSlice(fw, at, d, 0, 4);
    SubSlice(fw, at, d, 8, 12);
    SubSlice(fw, at, d, 12, 16);
    Read32Is(fw, at + 8);
    Read32Is(fw, at + 12);
  }

  lemma FourParts(
    a: ByteString, b: ByteString, c: ByteString, d: ByteString, fw: ByteString, m: nat, n: nat)
    requires a + b + c + d <= fw && |b| == m && |c| == n
    ensures |a| + m + n <= |fw| && fw[|a|..|a| + m] == b && fw[|a| + m..|a| + m + n] == c
  {
    var all, k := a + b + c + d, |a|;
    PrefixSlice(all, fw, k, k + m);
    PrefixSlice(all, fw, k + m, k + m + n);
    SliceOfBack(a, b, k, k + m);
    Within(a + b, c, d, k, k + m);
    SliceOfBack(a + b, c, k + m, k + m + n);
    SliceOfFront(a + b + c, d, k + m, k + m + n);
  }

  lemma PrefixSlice(all: ByteString, fw: ByteString, i: nat, j: nat)
    requires all <= fw && i <= j <= |all|
    ensures fw[i..j] == all[i..j]
  {
  }

  lemma SubSlice(fw: ByteString, at: nat, d: ByteString, i: nat, j: nat)
    requires at + |d| <= |fw| && fw[at..at + |d|] == d && i <= j <= |d|
    ensures fw[at + i..at + j] == d[i..j]
  {
    forall k | 0 <= k < j - i
      ensures fw[at + i..at + j][k] == d[i..j][k]
    {
      assert d[i + k] == fw[at..at + |d|][i + k];
    }
  }

  lemma DescriptorSlices(length: Word32, count: Word32)
    ensures var d := DescriptorBytes(length, count);
            d[0..4] == SIGNATURE && FromLe(d[8..12]) == 1 && FromLe(d[12..16]) == count
  {
    hide Le, FromLe, Pow256;
    var d := DescriptorBytes(length, count);
    WordSizes();
    LeRoundTrip(1, 4);
    LeRoundTrip(count, 4);
    assert d[8..12] == Le(1, 4);
    assert d[12..16] == Le(count, 4);
  }

  /** Parsing inverts the layout: whatever surrounds the table, and whatever entries come
      after the metadata entry, the sections that were written are the sections read. */
  lemma LayoutParses(
    payload: ByteString, length: Word32, sections: seq<Section>, gap: ByteString,
    early: ByteString, fromEnd: Word32, later: seq<Entry>, reset: ByteString, fw: ByteString)
    requires |sections| < U32
    requires fw == FirmwareBytes(BodyBytes(payload, length, sections, gap), TableBytes(early, fromEnd, later), reset)
    requires |BodyBytes(payload, length, sections, gap)| >= 18 && |reset| == 32
    requires |TableBytes(early, fromEnd, later)| + 18 < U16
    requires fromEnd == |fw| - |payload|
    requires forall e :: e in later ==> OtherEntry(e)
    requires ValidTable(fw, sections)
    ensures ParseTable(fw) == Ok(sections)
  {
    hide FindEntry, FromLe, FlatMap, OtherEntry, SectionBytes, FirmwareBytes, BodyBytes, TableBytes, Read32;
    hide WellFormed, DescriptorBytes;
    var body, table := BodyBytes(payload, length, sections, gap), TableBytes(early, fromEnd, later);
    FirmwareSlices(body, table, reset);
    TableFound(body[|body| - 18..], early, fromEnd, later);
    assert |payload| <= |fw| by {
      BodySlices(payload, length, sections, gap, body);
    }
    assert MetadataOffset(fw) == Ok(|payload|);
    assert body <= fw;
    BodySlices(payload, length, sections, gap, fw);
    DescriptorFields(fw, |payload|, length, |sections|);
    RecordsParse(fw, |payload| + 16, sections, 0);
  }
}
