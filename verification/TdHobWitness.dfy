/** Measuring the TD HOB twice: from the firmware's section table, and from the compact
    witness that replaces the table when the image is not downloaded. */
module TdHobWitness {
  import opened Common
  import opened Sequences
  import opened MemoryAcceptance
  import opened TdHob
  import opened Tdvf
  import opened Varuint

  const DEFAULT_HOB_BASE: Word64 := 0x80_9000
  const MAX_WITNESS_RANGES := 64

  predicate Accepts(s: Section) {
    s.secType == SECTION_TD_HOB || s.secType == SECTION_TEMP_MEM
  }

  function Digest(sha: Sha384, r: Result<ByteString>): Result<ByteString> {
    match r
    case Err => Err
    case Ok(b) => Ok(sha(b))
  }

  // ----- from the section table, in file order -----

  function SectionSpan(s: Section): seq<Span> {
    if Accepts(s) then [Span(s.memoryAddress, s.memoryAddress + s.memoryDataSize)] else []
  }

  function AcceptedSpans(sections: seq<Section>): seq<Span> {
    FlatMap(sections, SectionSpan)
  }

  /** The address of the last TD_HOB section. */
  function HobBase(sections: seq<Section>): Word64 {
    if sections == [] then DEFAULT_HOB_BASE
    else if sections[|sections| - 1].secType == SECTION_TD_HOB then sections[|sections| - 1].memoryAddress
    else HobBase(sections[..|sections| - 1])
  }

  predicate Wraps(s: Section) {
    Accepts(s) && s.memoryAddress + s.memoryDataSize >= U64
  }

  function TdHobOfSections(sections: seq<Section>, memorySize: nat): Result<ByteString> {
    if exists s :: s in sections && Wraps(s) then Err
    else TdHobBytes(AcceptAll(Fresh(memorySize), AcceptedSpans(sections)), memorySize, HobBase(sections))
  }

  /** The section loop: accepts every TD_HOB and TEMP_MEM section in file order. */
  method AcceptSections(acceptor: MemoryAcceptor, sections: seq<Section>) returns (r: Result<Word64>)
    modifies acceptor
    ensures r.Err? <==> exists s :: s in sections && Wraps(s)
    ensures r.Ok? ==> r.value == HobBase(sections)
                      && acceptor.ranges == AcceptAll(old(acceptor.ranges), AcceptedSpans(sections))
  {
    hide AcceptOne, AcceptAll, FlatMap;
    var base := DEFAULT_HOB_BASE;
    StartAccepting(acceptor.ranges);
    for i := 0 to |sections|
      invariant forall j :: 0 <= j < i ==> !Wraps(sections[j])
      invariant acceptor.ranges == AcceptAll(old(acceptor.ranges), AcceptedSpans(sections[..i]))
      invariant base == HobBase(sections[..i])
    {
      var s := sections[i];
      SpansAppend(sections, i);
      if Accepts(s) {
        var end := s.memoryAddress + s.memoryDataSize;
        if end >= U64 {
          assert Wraps(s);
          return Err;
        }
        acceptor.Accept(Span(s.memoryAddress, end));
        AcceptAllAppend(old(acceptor.ranges), AcceptedSpans(sections[..i]), Span(s.memoryAddress, end));
      }
      if s.secType == SECTION_TD_HOB {
        base := s.memoryAddress;
      }
    }
    assert sections[..|sections|] == sections;
    return Ok(base);
  }

  lemma SpansAppend(sections: seq<Section>, i: nat)
    requires i < |sections|
    ensures AcceptedSpans(sections[..i + 1]) ==
            if Accepts(sections[i]) then AcceptedSpans(sections[..i]) + SectionSpan(sections[i])
            else AcceptedSpans(sections[..i])
    ensures HobBase(sections[..i + 1]) ==
            if sections[i].secType == SECTION_TD_HOB then sections[i].memoryAddress else HobBase(sections[..i])
  {
    hide FlatMap;
    assert sections[..i + 1] == sections[..i] + [sections[i]];
    assert sections[..i + 1][..i] == sections[..i];
    FlatMapAppend(sections[..i], sections[i], SectionSpan);
  }

  /** `Tdvf::measure_td_hob`. */
  method MeasureTdHob(sections: seq<Section>, memorySize: Word64, sha: Sha384) returns (r: Result<ByteString>)
    ensures r == Digest(sha, TdHobOfSections(sections, memorySize))
  {
    hide AcceptAll, TdHobBytes, AcceptedSpans, HobBase, Wraps;
    var acceptor := new MemoryAcceptor(0, memorySize);
    var base :- AcceptSections(acceptor, sections);
    var tdHob := EmitTdHob(acceptor.ranges, memorySize, base);
    if tdHob.Err? {
      return Err;
    }
    return Ok(sha(tdHob.value));
  }

  lemma StartAccepting(rs: seq<Range>)
    ensures AcceptAll(rs, AcceptedSpans([])) == rs
  {
  }

  // ----- building the witness -----

  datatype PageRange = PageRange(start: nat, count: nat)

  function PageStart(r: PageRange): int {
    r.start
  }

  function SectionPages(s: Section): seq<PageRange> {
    if Accepts(s) then [PageRange(s.memoryAddress / 0x1000, s.memoryDataSize / 0x1000)] else []
  }

  function PageRanges(sections: seq<Section>): seq<PageRange> {
    FlatMap(sections, SectionPages)
  }

  function HobPage(s: Section): seq<nat> {
    if s.secType == SECTION_TD_HOB then [s.memoryAddress / 0x1000] else []
  }

  function HobPages(sections: seq<Section>): seq<nat> {
    FlatMap(sections, HobPage)
  }

  predicate Apart(rs: seq<PageRange>) {
    forall i :: 0 <= i < |rs| - 1 ==> rs[i].start + rs[i].count <= rs[i + 1].start
  }

  function Minus(a: nat, b: nat): nat {
    if a < b then 0 else a - b
  }

  function EncodeRange(r: PageRange, base: nat): ByteString {
    Encode(Minus(r.start, base)) + Encode(r.count)
  }

  function RangeEncoder(base: nat): PageRange -> ByteString {
    (r: PageRange) => EncodeRange(r, base)
  }

  /** base page, TD_HOB page delta, range count, then a start delta and a page count per range. */
  function EncodeWitness(rs: seq<PageRange>, base: nat, hobPage: nat): ByteString
    requires base <= hobPage
  {
    Encode(base) + Encode(hobPage - base) + Encode(|rs|) + FlatMap(rs, RangeEncoder(base))
  }

  function Witness(sections: seq<Section>): Result<ByteString> {
    var ranges, pages := PageRanges(sections), HobPages(sections);
    var sorted := Sort(ranges, PageStart);
    if (exists r :: r in ranges && r.count == 0) || |pages| != 1 || ranges == [] || !Apart(sorted) then Err
    else if pages[0] < sorted[0].start then Err
    else Ok(EncodeWitness(sorted, sorted[0].start, pages[0]))
  }

  /** The first loop of `td_hob_witness_v1`. */
  method CollectRanges(sections: seq<Section>) returns (r: Result<(seq<PageRange>, Option<nat>)>)
    ensures r.Err? <==> (exists x :: x in PageRanges(sections) && x.count == 0) || |HobPages(sections)| > 1
    ensures r.Ok? ==> r.value.0 == PageRanges(sections)
                      && HobPages(sections) == (if r.value.1.Some? then [r.value.1.value] else [])
  {
    hide FlatMap;
    var ranges: seq<PageRange> := [];
    var hobPage: Option<nat> := None;
    StartCollecting();
    for i := 0 to |sections|
      invariant ranges == PageRanges(sections[..i])
      invariant forall x :: x in ranges ==> x.count > 0
      invariant HobPages(sections[..i]) == (if hobPage.Some? then [hobPage.value] else [])
    {
      var s := sections[i];
      assert sections[..i + 1] == sections[..i] + [s];
      FlatMapAppend(sections[..i], s, SectionPages);
      FlatMapAppend(sections[..i], s, HobPage);
      FlatMapPrefix(sections, i + 1, SectionPages);
      FlatMapPrefix(sections, i + 1, HobPage);
      if Accepts(s) {
        var page := PageRange(s.memoryAddress / 0x1000, s.memoryDataSize / 0x1000);
        if page.count == 0 {
          assert page in PageRanges(sections[..i + 1]);
          assert page in PageRanges(sections);
          return Err;
        }
        ranges := ranges + [page];
      }
      if s.secType == SECTION_TD_HOB {
        if hobPage.Some? {
          assert |HobPages(sections[..i + 1])| == 2;
          return Err;
        }
        hobPage := Some(s.memoryAddress / 0x1000);
      }
    }
    assert sections[..|sections|] == sections;
    return Ok((ranges, hobPage));
  }

  lemma StartCollecting()
    ensures PageRanges([]) == [] && HobPages([]) == []
  {
  }

  lemma FlatMapPrefix<T>(sections: seq<Section>, i: nat, f: Section -> seq<T>)
    requires i <= |sections|
    ensures FlatMap(sections[..i], f) <= FlatMap(sections, f)
  {
    assert sections == sections[..i] + sections[i..];
    FlatMapSplit(sections[..i], sections[i..], f);
  }

  /** `Tdvf::td_hob_witness_v1`. */
  method BuildWitness(sections: seq<Section>) returns (r: Result<ByteString>)
    ensures r == Witness(sections)
  {
    hide FlatMap, Sort, EncodeWitness;
    var collected :- CollectRanges(sections);
    var ranges, hobPage := collected.0, collected.1;
    if ranges == [] || hobPage.None? {
      return Err;
    }
    ranges := Sort(ranges, PageStart);
    var prevEnd: Option<nat> := None;
    for i := 0 to |ranges|
      invariant prevEnd == if i == 0 then None else Some(ranges[i - 1].start + ranges[i - 1].count)
      invariant Apart(ranges[..i])
    {
      if prevEnd.Some? && ranges[i].start < prevEnd.value {
        return Err;
      }
      prevEnd := Some(ranges[i].start + ranges[i].count);
    }
    assert ranges[..|ranges|] == ranges;
    var base := ranges[0].start;
    if hobPage.value < base {
      return Err;
    }
    var out := WriteWitness(ranges, base, hobPage.value);
    return Ok(out);
  }

  method WriteWitness(ranges: seq<PageRange>, base: nat, hobPage: nat) returns (out: ByteString)
    requires base <= hobPage
    ensures out == EncodeWitness(ranges, base, hobPage)
  {
    hide Encode;
    ghost var header := Encode(base) + Encode(hobPage - base) + Encode(|ranges|);
    out := PutVaruint(base, []);
    out := PutVaruint(hobPage - base, out);
    out := PutVaruint(|ranges|, out);
    for i := 0 to |ranges|
      invariant out == header + FlatMap(ranges[..i], RangeEncoder(base))
    {
      assert ranges[..i + 1] == ranges[..i] + [ranges[i]];
      FlatMapAppend(ranges[..i], ranges[i], RangeEncoder(base));
      ghost var a, b := Encode(Minus(ranges[i].start, base)), Encode(ranges[i].count);
      Assoc(header, FlatMap(ranges[..i], RangeEncoder(base)), a + b);
      Assoc(out, a, b);
      out := PutVaruint(Minus(ranges[i].start, base), out);
      out := PutVaruint(ranges[i].count, out);
    }
    assert ranges[..|ranges|] == ranges;
  }

  // ----- reading the witness -----

  /** `page * 0x1000`, unless it leaves 64 bits. */
  function PageAddress(page: nat): Result<Word64> {
    if page >= U64 || page * 0x1000 >= U64 then Err else Ok(page * 0x1000)
  }

  function ReadRange(input: ByteString, base: nat): (r: Result<Cursor<Span>>)
    ensures r.Ok? ==> |r.value.rest| < |input|
  {
    var delta :- Decode(input);
    var count :- Decode(delta.rest);
    var start :- PageAddress(base + delta.value);
    var len :- PageAddress(count.value);
    if start + len >= U64 then Err else Ok(Cursor(Span(start, start + len), count.rest))
  }

  function ReadRanges(input: ByteString, base: nat, count: nat): Result<Cursor<seq<Span>>>
    decreases count
  {
    if count == 0 then Ok(Cursor([], input))
    else
      var first :- ReadRange(input, base);
      var others :- ReadRanges(first.rest, base, count - 1);
      Ok(Cursor([first.value] + others.value, others.rest))
  }

  datatype Layout = Layout(base: Word64, spans: seq<Span>)

  datatype Header = Header(basePage: Word64, address: Word64, count: Word64, rest: ByteString)

  function ReadHeader(data: ByteString): Result<Header> {
    var base :- Decode(data);
    var delta :- Decode(base.rest);
    var count :- Decode(delta.rest);
    if count.value > MAX_WITNESS_RANGES then Err
    else
      var address :- PageAddress(base.value + delta.value);
      Ok(Header(base.value, address, count.value, count.rest))
  }

  function DecodeWitness(data: ByteString): Result<Layout> {
    var header :- ReadHeader(data);
    var ranges :- ReadRanges(header.rest, header.basePage, header.count);
    if ranges.rest != [] then Err else Ok(Layout(header.address, ranges.value))
  }

  function TdHobOfWitness(data: ByteString, memorySize: nat): Result<ByteString> {
    var layout :- DecodeWitness(data);
    TdHobBytes(AcceptAll(Fresh(memorySize), layout.spans), memorySize, layout.base)
  }

  /** The reading loop: every range is accepted as soon as it is decoded. */
  method AcceptRanges(acceptor: MemoryAcceptor, input: ByteString, base: Word64, count: Word64)
    returns (r: Result<ByteString>)
    modifies acceptor
    ensures ReadRanges(input, base, count).Err? <==> r.Err?
    ensures r.Ok? ==> r.value == ReadRanges(input, base, count).value.rest
    ensures r.Ok? ==> acceptor.ranges == AcceptAll(old(acceptor.ranges), ReadRanges(input, base, count).value.value)
  {
    hide AcceptAll, AcceptOne, ReadRange;
    var rest := input;
    ghost var spans: seq<Span> := [];
    AcceptNothing(acceptor.ranges);
    PrependNothing(ReadRanges(input, base, count));
    for i := 0 to count
      invariant acceptor.ranges == AcceptAll(old(acceptor.ranges), spans)
      invariant Prepend(spans, ReadRanges(rest, base, count - i)) == ReadRanges(input, base, count)
    {
      var range := ReadOneRange(rest, base);
      if range.Err? {
        return Err;
      }
      PrependStep(spans, range.value.value, ReadRanges(range.value.rest, base, count - i - 1));
      acceptor.Accept(range.value.value);
      AcceptAllAppend(old(acceptor.ranges), spans, range.value.value);
      spans := spans + [range.value.value];
      rest := range.value.rest;
    }
    assert spans + [] == spans;
    return Ok(rest);
  }

  method ReadOneRange(input: ByteString, base: Word64) returns (r: Result<Cursor<Span>>)
    ensures r == ReadRange(input, base)
  {
    var delta :- ReadVaruint(input);
    var count :- ReadVaruint(delta.rest);
    if base + delta.value >= U64 || (base + delta.value) * 0x1000 >= U64 {
      return Err;
    }
    var start := (base + delta.value) * 0x1000;
    if count.value * 0x1000 >= U64 {
      return Err;
    }
    var len := count.value * 0x1000;
    if start + len >= U64 {
      return Err;
    }
    return Ok(Cursor(Span(start, start + len), count.rest));
  }

  lemma AcceptNothing(rs: seq<Range>)
    ensures AcceptAll(rs, []) == rs
  {
  }

  function Prepend(a: seq<Span>, r: Result<Cursor<seq<Span>>>): Result<Cursor<seq<Span>>> {
    match r
    case Err => Err
    case Ok(c) => Ok(Cursor(a + c.value, c.rest))
  }

  lemma PrependNothing(r: Result<Cursor<seq<Span>>>)
    ensures Prepend([], r) == r
  {
    if r.Ok? {
      assert [] + r.value.value == r.value.value;
    }
  }

  lemma PrependStep(a: seq<Span>, p: Span, r: Result<Cursor<seq<Span>>>)
    ensures Prepend(a + [p], r) == Prepend(a, Prepend([p], r))
  {
    if r.Ok? {
      Assoc(a, [p], r.value.value);
    }
  }

  /** `measure_td_hob_from_witness_data`. */
  method MeasureTdHobFromWitness(data: ByteString, memorySize: Word64, sha: Sha384) returns (r: Result<ByteString>)
    ensures r == Digest(sha, TdHobOfWitness(data, memorySize))
  {
    hide AcceptAll, ReadRanges, TdHobBytes, ReadHeader;
    var header :- ReadWitnessHeader(data);
    var acceptor := new MemoryAcceptor(0, memorySize);
    var rest :- AcceptRanges(acceptor, header.rest, header.basePage, header.count);
    if rest != [] {
      return Err;
    }
    var tdHob := EmitTdHob(acceptor.ranges, memorySize, header.address);
    if tdHob.Err? {
      return Err;
    }
    return Ok(sha(tdHob.value));
  }

  method ReadWitnessHeader(data: ByteString) returns (r: Result<Header>)
    ensures r == ReadHeader(data)
  {
    hide Decode;
    var base :- ReadVaruint(data);
    var delta :- ReadVaruint(base.rest);
    var count :- ReadVaruint(delta.rest);
    if count.value > MAX_WITNESS_RANGES {
      return Err;
    }
    if base.value + delta.value >= U64 || (base.value + delta.value) * 0x1000 >= U64 {
      return Err;
    }
    return Ok(Header(base.value, (base.value + delta.value) * 0x1000, count.value, count.rest));
  }

  // ----- which tables have a witness -----

  predicate Overlap(r: PageRange, q: PageRange) {
    r.start < q.start + q.count && q.start < r.start + r.count
  }

  predicate NoOverlap(rs: seq<PageRange>) {
    forall i, j :: 0 <= i < j < |rs| ==> !Overlap(rs[i], rs[j])
  }

  lemma {:induction false} ApartSpread(rs: seq<PageRange>, i: nat, j: nat)
    requires Apart(rs) && i < j < |rs|
    ensures rs[i].start + rs[i].count <= rs[j].start
    decreases j - i
  {
    if i + 1 < j {
      ApartSpread(rs, i + 1, j);
    }
  }

  /** Checking neighbours in address order decides overlap between any two ranges. */
  lemma ApartWhenSorted(rs: seq<PageRange>)
    requires forall r :: r in rs ==> r.count > 0
    ensures Apart(Sort(rs, PageStart)) <==> NoOverlap(rs)
  {
    hide Sort;
    var t := Sort(rs, PageStart);
    forall r
      ensures r in t <==> r in rs
    {
      SortMembers(rs, PageStart, r);
    }
    if Apart(t) {
      forall i, j | 0 <= i < j < |t|
        ensures PageStart(t[i]) != PageStart(t[j])
      {
        ApartSpread(t, i, j);
        assert t[i] in rs;
      }
      DistinctBySort(rs, PageStart);
      forall i, j | 0 <= i < j < |rs|
        ensures !Overlap(rs[i], rs[j])
      {
        assert PageStart(rs[i]) != PageStart(rs[j]);
        assert rs[i] in t && rs[j] in t;
        var a :| 0 <= a < |t| && t[a] == rs[i];
        var b :| 0 <= b < |t| && t[b] == rs[j];
        if a < b {
          ApartSpread(t, a, b);
        } else {
          ApartSpread(t, b, a);
        }
      }
    }
    if NoOverlap(rs) {
      NoOverlapSorted(rs);
    }
  }

  lemma NoOverlapSorted(rs: seq<PageRange>)
    requires (forall r :: r in rs ==> r.count > 0) && NoOverlap(rs)
    ensures Apart(Sort(rs, PageStart))
  {
    hide Sort;
    var t := Sort(rs, PageStart);
    SortSorted(rs, PageStart);
    forall i, j | 0 <= i < j < |rs|
      ensures PageStart(rs[i]) != PageStart(rs[j])
    {
      assert rs[i] in rs && rs[j] in rs;
      assert !Overlap(rs[i], rs[j]);
    }
    DistinctAfterSort(rs, PageStart);
    forall k | 0 <= k < |t| - 1
      ensures t[k].start + t[k].count <= t[k + 1].start
    {
      SortMembers(rs, PageStart, t[k]);
      SortMembers(rs, PageStart, t[k + 1]);
      assert PageStart(t[k]) <= PageStart(t[k + 1]) && PageStart(t[k]) != PageStart(t[k + 1]);
      var i :| 0 <= i < |rs| && rs[i] == t[k];
      var j :| 0 <= j < |rs| && rs[j] == t[k + 1];
      assert if i < j then !Overlap(rs[i], rs[j]) else !Overlap(rs[j], rs[i]);
    }
  }

  lemma {:induction false} HobPageAmongRanges(sections: seq<Section>, page: nat)
    requires page in HobPages(sections)
    ensures exists r :: r in PageRanges(sections) && r.start == page
  {
    var init, last := sections[..|sections| - 1], sections[|sections| - 1];
    if page in HobPages(init) {
      HobPageAmongRanges(init, page);
      var r :| r in PageRanges(init) && r.start == page;
      assert r in PageRanges(sections);
    } else {
      var r := PageRange(page, last.memoryDataSize / 0x1000);
      assert r in SectionPages(last);
      assert r in PageRanges(sections);
    }
  }

  /** A witness exists exactly when there is one TD_HOB section and the ranges are non-empty
      and pairwise disjoint; the test that the TD_HOB page is not below the base never fires. */
  lemma WitnessExists(sections: seq<Section>)
    ensures Witness(sections).Ok? <==>
            |HobPages(sections)| == 1 && NoOverlap(PageRanges(sections))
            && forall r :: r in PageRanges(sections) ==> r.count > 0
  {
    hide Sort, FlatMap, EncodeWitness;
    var ranges := PageRanges(sections);
    if forall r :: r in ranges ==> r.count > 0 {
      ApartWhenSorted(ranges);
      if |HobPages(sections)| == 1 {
        HobPageAmongRanges(sections, HobPages(sections)[0]);
        var r :| r in ranges && r.start == HobPages(sections)[0];
        var t := Sort(ranges, PageStart);
        SortMembers(ranges, PageStart, r);
        SortSorted(ranges, PageStart);
        var i :| 0 <= i < |t| && t[i] == r;
        assert i > 0 ==> PageStart(t[0]) <= PageStart(t[i]);
      }
    }
  }

  // ----- agreement -----

  function ToSpan(r: PageRange): Span {
    Span(r.start * 0x1000, (r.start + r.count) * 0x1000)
  }

  predicate Addressable(r: PageRange) {
    (r.start + r.count) * 0x1000 < U64
  }

  lemma RangeReadsBack(r: PageRange, base: nat, rest: ByteString)
    requires base <= r.start && Addressable(r)
    ensures ReadRange(EncodeRange(r, base) + rest, base) == Ok(Cursor(ToSpan(r), rest))
  {
    hide Encode, Decode;
    var delta := r.start - base;
    Assoc(Encode(delta), Encode(r.count), rest);
    RoundTrip(delta, Encode(r.count) + rest);
    RoundTrip(r.count, rest);
  }

  lemma {:induction false} RangesReadBack(rs: seq<PageRange>, base: nat, rest: ByteString)
    requires forall r :: r in rs ==> base <= r.start && Addressable(r)
    ensures ReadRanges(FlatMap(rs, RangeEncoder(base)) + rest, base, |rs|) == Ok(Cursor(Map(rs, ToSpan), rest))
    decreases |rs|
  {
    hide EncodeRange, ReadRange, Addressable, ToSpan;
    if rs == [] {
      assert [] + rest == rest;
    } else {
      var first, others := rs[0], rs[1..];
      assert rs == [first] + others;
      hide FlatMap;
      FlatMapSplit([first], others, RangeEncoder(base));
      FlatMapOne(first, RangeEncoder(base));
      Assoc(EncodeRange(first, base), FlatMap(others, RangeEncoder(base)), rest);
      RangeReadsBack(first, base, FlatMap(others, RangeEncoder(base)) + rest);
      RangesReadBack(others, base, rest);
      assert Map(rs, ToSpan) == [ToSpan(first)] + Map(others, ToSpan);
    }
  }

  lemma HeaderReadsBack(base: nat, hobPage: nat, count: nat, rest: ByteString)
    requires count <= MAX_WITNESS_RANGES && base <= hobPage && hobPage * 0x1000 < U64
    ensures ReadHeader(Encode(base) + (Encode(hobPage - base) + (Encode(count) + rest)))
            == Ok(Header(base, hobPage * 0x1000, count, rest))
  {
    hide Encode, Decode;
    RoundTrip(base, Encode(hobPage - base) + (Encode(count) + rest));
    RoundTrip(hobPage - base, Encode(count) + rest);
    RoundTrip(count, rest);
  }

  lemma WitnessReadsBack(rs: seq<PageRange>, base: nat, hobPage: nat)
    requires |rs| <= 64 && base <= hobPage && hobPage * 0x1000 < U64
    requires forall r :: r in rs ==> base <= r.start && Addressable(r)
    ensures DecodeWitness(EncodeWitness(rs, base, hobPage)) == Ok(Layout(hobPage * 0x1000, Map(rs, ToSpan)))
  {
    hide Encode, Addressable, ReadRanges, FlatMap, Map, ReadHeader;
    var a, b, c, d := Encode(base), Encode(hobPage - base), Encode(|rs|), FlatMap(rs, RangeEncoder(base));
    Assoc(a + b, c, d);
    Assoc(a, b, c + d);
    HeaderReadsBack(base, hobPage, |rs|, d);
    RangesReadBack(rs, base, []);
    assert d + [] == d;
  }

  /** No witness has more than 64 ranges or leaves 64 bits, and all its addresses are page addresses. */
  lemma WitnessLimits(data: ByteString)
    ensures DecodeWitness(data).Ok? ==>
              var layout := DecodeWitness(data).value;
              && |layout.spans| <= 64 && layout.base % 4096 == 0
              && forall i :: 0 <= i < |layout.spans| ==> PageSpan(layout.spans[i])
  {
    hide ReadRanges, PageSpan;
    if ReadHeader(data).Ok? {
      HeaderLimits(data);
      var header := ReadHeader(data).value;
      hide ReadHeader;
      RangesLimits(header.rest, header.basePage, header.count);
    }
  }

  predicate PageSpan(p: Span) {
    p.start % 4096 == 0 && p.end % 4096 == 0 && p.start <= p.end < 0x1_0000_0000_0000_0000
  }

  lemma HeaderLimits(data: ByteString)
    requires ReadHeader(data).Ok?
    ensures ReadHeader(data).value.count <= 64 && ReadHeader(data).value.address % 4096 == 0
  {
    hide Decode;
  }

  lemma RangeLimits(input: ByteString, base: nat)
    requires ReadRange(input, base).Ok?
    ensures PageSpan(ReadRange(input, base).value.value)
  {
    hide Decode;
  }

  lemma {:induction false} RangesLimits(input: ByteString, base: nat, count: nat)
    ensures ReadRanges(input, base, count).Ok? ==>
              var spans := ReadRanges(input, base, count).value.value;
              |spans| == count && forall i :: 0 <= i < |spans| ==> PageSpan(spans[i])
    decreases count
  {
    hide ReadRange, PageSpan;
    if count > 0 && ReadRange(input, base).Ok? {
      RangeLimits(input, base);
      RangesLimits(ReadRange(input, base).value.rest, base, count - 1);
    }
  }

  lemma SpanOfPages(s: Section, fwLen: nat)
    requires WellFormed(s, fwLen)
    ensures SectionSpan(s) == Map(SectionPages(s), ToSpan)
    ensures forall r :: r in SectionPages(s) ==> Addressable(r)
  {
    if Accepts(s) {
      var a, n := s.memoryAddress / 0x1000, s.memoryDataSize / 0x1000;
      assert a * 0x1000 == s.memoryAddress && n * 0x1000 == s.memoryDataSize;
      assert SectionPages(s)[..0] == [];
      assert Map(SectionPages(s), ToSpan) == [ToSpan(PageRange(a, n))];
    }
  }

  lemma MapSplit<S, T>(a: seq<S>, b: seq<S>, f: S -> T)
    ensures Map(a + b, f) == Map(a, f) + Map(b, f)
  {
    hide Map;
  }

  /** In page units and in byte units, the sections describe the same ranges. */
  lemma {:induction false} SpansOfPages(sections: seq<Section>, fwLen: nat)
    requires forall s :: s in sections ==> WellFormed(s, fwLen)
    ensures AcceptedSpans(sections) == Map(PageRanges(sections), ToSpan)
    ensures forall r :: r in PageRanges(sections) ==> Addressable(r)
    ensures |PageRanges(sections)| <= |sections|
  {
    hide Map, SectionSpan, ToSpan, WellFormed, Addressable;
    if sections == [] {
      hide *;
      NoSections();
    } else {
      var init, last := sections[..|sections| - 1], sections[|sections| - 1];
      SpansOfPages(init, fwLen);
      SpanOfPages(last, fwLen);
      MapSplit(PageRanges(init), SectionPages(last), ToSpan);
    }
  }

  lemma NoSections()
    ensures AcceptedSpans([]) == Map(PageRanges([]), ToSpan) == [] && PageRanges([]) == []
  {
  }

  lemma {:induction false} OneHobPage(sections: seq<Section>, fwLen: nat)
    requires forall s :: s in sections ==> WellFormed(s, fwLen)
    requires |HobPages(sections)| == 1
    ensures HobPages(sections)[0] * 0x1000 == HobBase(sections)
  {
    hide WellFormed;
    var init, last := sections[..|sections| - 1], sections[|sections| - 1];
    if last.secType == SECTION_TD_HOB {
      assert HobPages(sections) == HobPages(init) + HobPage(last);
      AlignedAddress(last, fwLen);
    } else {
      assert HobPages(sections) == HobPages(init) + [];
      OneHobPage(init, fwLen);
    }
  }

  lemma AlignedAddress(s: Section, fwLen: nat)
    requires WellFormed(s, fwLen)
    ensures s.memoryAddress / 0x1000 * 0x1000 == s.memoryAddress
    ensures !Wraps(s)
  {
  }

  lemma {:induction false} ApartIsStrict(rs: seq<PageRange>, i: nat, j: nat)
    requires Apart(rs) && (forall r :: r in rs ==> r.count > 0) && i < j < |rs|
    ensures rs[i].start < rs[j].start
    decreases j - i
  {
    assert rs[i] in rs;
    if i + 1 < j {
      ApartIsStrict(rs, i + 1, j);
    }
  }

  lemma PageOrderIsByteOrder()
    ensures Monotone(ToSpan, PageStart, SpanStart)
  {
  }

  /** The ranges a witness holds: sorted, addressable, and with distinct starts in file order. */
  lemma WitnessRanges(sections: seq<Section>, fwLen: nat)
    requires forall s :: s in sections ==> WellFormed(s, fwLen)
    requires Witness(sections).Ok?
    ensures var sorted := Sort(PageRanges(sections), PageStart);
            |sorted| <= |sections| && sorted != []
            && (forall r :: r in sorted ==> sorted[0].start <= r.start && Addressable(r))
            && Map(sorted, ToSpan) == Sort(AcceptedSpans(sections), SpanStart)
            && DistinctStarts(AcceptedSpans(sections))
  {
    hide Addressable, FlatMap, Sort, Map, ToSpan, WellFormed, EncodeWitness, AcceptedSpans, PageRanges, HobPages;
    var ranges := PageRanges(sections);
    var sorted := Sort(ranges, PageStart);
    SpansOfPages(sections, fwLen);
    PageOrderIsByteOrder();
    MapSort(ranges, ToSpan, PageStart, SpanStart);
    SortSorted(ranges, PageStart);
    forall r | r in sorted
      ensures r in ranges && r.count > 0 && sorted[0].start <= r.start
    {
      SortMembers(ranges, PageStart, r);
      var i :| 0 <= i < |sorted| && sorted[i] == r;
      assert i > 0 ==> PageStart(sorted[0]) <= PageStart(sorted[i]);
    }
    forall i, j | 0 <= i < j < |sorted|
      ensures PageStart(sorted[i]) != PageStart(sorted[j])
    {
      ApartIsStrict(sorted, i, j);
    }
    DistinctBySort(ranges, PageStart);
    DistinctSpans(ranges);
  }

  lemma DistinctSpans(ranges: seq<PageRange>)
    requires forall i, j :: 0 <= i < j < |ranges| ==> PageStart(ranges[i]) != PageStart(ranges[j])
    ensures DistinctStarts(Map(ranges, ToSpan))
  {
    hide Map;
  }

  /** For every well-formed table that has a witness, and every memory size, the bytes hashed
      from the witness are the bytes hashed from the table (or both measurements fail). */
  lemma WitnessAgrees(sections: seq<Section>, fwLen: nat, memorySize: nat)
    requires |sections| <= MAX_TDVF_SECTIONS
    requires forall s :: s in sections ==> WellFormed(s, fwLen)
    requires Witness(sections).Ok?
    ensures TdHobOfWitness(Witness(sections).value, memorySize) == TdHobOfSections(sections, memorySize)
  {
    hide Addressable, FlatMap, Sort, Map, ToSpan, WellFormed, EncodeWitness, AcceptedSpans, PageRanges, HobPages,
      DecodeWitness, AcceptAll, TdHobBytes, HobBase, Wraps, TdHobOfSections, TdHobOfWitness;
    WitnessLayout(sections, fwLen);
    NothingWraps(sections, fwLen);
    OrderIndependence(memorySize, AcceptedSpans(sections));
    FromSections(sections, memorySize);
    FromLayout(Witness(sections).value, HobBase(sections), Sort(AcceptedSpans(sections), SpanStart), memorySize);
  }

  /** What a witness decodes to. */
  lemma WitnessLayout(sections: seq<Section>, fwLen: nat)
    requires |sections| <= MAX_TDVF_SECTIONS
    requires forall s :: s in sections ==> WellFormed(s, fwLen)
    requires Witness(sections).Ok?
    ensures DecodeWitness(Witness(sections).value)
            == Ok(Layout(HobBase(sections), Sort(AcceptedSpans(sections), SpanStart)))
    ensures DistinctStarts(AcceptedSpans(sections))
  {
    var sorted := Sort(PageRanges(sections), PageStart);
    WitnessRanges(sections, fwLen);
    OneHobPage(sections, fwLen);
    hide Addressable, FlatMap, Sort, Map, ToSpan, WellFormed, EncodeWitness, AcceptedSpans, PageRanges, HobPages,
      DecodeWitness, HobBase;
    WitnessReadsBack(sorted, sorted[0].start, HobPages(sections)[0]);
  }

  lemma NothingWraps(sections: seq<Section>, fwLen: nat)
    requires forall s :: s in sections ==> WellFormed(s, fwLen)
    ensures forall s :: s in sections ==> !Wraps(s)
  {
    forall s | s in sections
      ensures !Wraps(s)
    {
      AlignedAddress(s, fwLen);
    }
  }

  lemma FromSections(sections: seq<Section>, memorySize: nat)
    requires forall s :: s in sections ==> !Wraps(s)
    ensures TdHobOfSections(sections, memorySize)
            == TdHobBytes(AcceptAll(Fresh(memorySize), AcceptedSpans(sections)), memorySize, HobBase(sections))
  {
    hide AcceptAll, TdHobBytes, HobBase, Wraps, AcceptedSpans;
  }

  lemma FromLayout(data: ByteString, base: Word64, spans: seq<Span>, memorySize: nat)
    requires DecodeWitness(data) == Ok(Layout(base, spans))
    ensures TdHobOfWitness(data, memorySize) == TdHobBytes(AcceptAll(Fresh(memorySize), spans), memorySize, base)
  {
    hide AcceptAll, TdHobBytes, DecodeWitness;
  }

  // ----- the formats, in numbers -----

  /** A start delta and a page count for each range. */
  function Deltas(rs: seq<PageRange>, base: nat): seq<nat> {
    if rs == [] then [] else [Minus(rs[0].start, base), rs[0].count] + Deltas(rs[1..], base)
  }

  lemma {:induction false} RangesSpell(rs: seq<PageRange>, base: nat)
    ensures Spells(FlatMap(rs, RangeEncoder(base)), Deltas(rs, base))
    decreases |rs|
  {
    hide Encode, Spells;
    if rs == [] {
      hide *;
      NoRangesSpell(base);
    } else {
      var first, others := rs[0], rs[1..];
      assert rs == [first] + others;
      hide FlatMap;
      RangesSpell(others, base);
      FlatMapSplit([first], others, RangeEncoder(base));
      FlatMapOne(first, RangeEncoder(base));
      var rest, delta := FlatMap(others, RangeEncoder(base)), Minus(first.start, base);
      SpellsMore(first.count, rest, Deltas(others, base));
      SpellsMore(delta, Encode(first.count) + rest, [first.count] + Deltas(others, base));
      Assoc(Encode(delta), Encode(first.count), rest);
      assert [delta] + ([first.count] + Deltas(others, base)) == [delta, first.count] + Deltas(others, base);
    }
  }

  lemma NoRangesSpell(base: nat)
    ensures Spells(FlatMap([], RangeEncoder(base)), Deltas([], base))
  {
  }

  /** A witness is the base page, the distance of the TD_HOB page from it, the number of ranges, and
      two numbers for each range. */
  lemma WitnessSpells(rs: seq<PageRange>, base: nat, hobPage: nat)
    requires base <= hobPage
    ensures Spells(EncodeWitness(rs, base, hobPage), [base, hobPage - base, |rs|] + Deltas(rs, base))
  {
    hide Encode, Spells, FlatMap, Deltas;
    RangesSpell(rs, base);
    var a, b, c, d := Encode(base), Encode(hobPage - base), Encode(|rs|), FlatMap(rs, RangeEncoder(base));
    var ns := Deltas(rs, base);
    SpellsMore(|rs|, d, ns);
    SpellsMore(hobPage - base, c + d, [|rs|] + ns);
    SpellsMore(base, b + (c + d), [hobPage - base] + ([|rs|] + ns));
    Assoc(a + b, c, d);
    Assoc(a, b, c + d);
    assert [base] + ([hobPage - base] + ([|rs|] + ns)) == [base, hobPage - base, |rs|] + ns;
  }

  /** An address is accepted exactly when it lies in a TD_HOB (2) or temporary memory (3) section. */
  lemma {:induction false} AcceptedAddresses(sections: seq<Section>, x: int)
    ensures (exists p :: p in AcceptedSpans(sections) && p.start <= x < p.end)
            <==> exists s :: s in sections && (s.secType == 2 || s.secType == 3)
                             && s.memoryAddress <= x < s.memoryAddress + s.memoryDataSize
  {
    if sections != [] {
      var init, last := sections[..|sections| - 1], sections[|sections| - 1];
      AcceptedAddresses(init, x);
      assert sections == init + [last];
      FlatMapAppend(init, last, SectionSpan);
      hide FlatMap;
      AcceptedLast(init, last, x);
    }
  }

  lemma AcceptedLast(init: seq<Section>, last: Section, x: int)
    requires AcceptedSpans(init + [last]) == AcceptedSpans(init) + SectionSpan(last)
    ensures (exists p :: p in AcceptedSpans(init + [last]) && p.start <= x < p.end)
            <==> || (exists p :: p in AcceptedSpans(init) && p.start <= x < p.end)
                 || ((last.secType == 2 || last.secType == 3)
                     && last.memoryAddress <= x < last.memoryAddress + last.memoryDataSize)
  {
    hide FlatMap;
    if Accepts(last) {
      var p := Span(last.memoryAddress, last.memoryAddress + last.memoryDataSize);
      assert p in SectionSpan(last) && p in AcceptedSpans(init + [last]);
    }
  }

  /** The HOB list goes where the last TD_HOB section is, or to 0x809000 if there is none. */
  lemma {:induction false} HobBaseIs(sections: seq<Section>, i: nat)
    requires i <= |sections| && (i < |sections| ==> sections[i].secType == 2)
    requires forall j :: 0 <= j < |sections| && (i < j || i == |sections|) ==> sections[j].secType != 2
    ensures HobBase(sections) == if i < |sections| then sections[i].memoryAddress else 0x809000
  {
    if sections != [] && i != |sections| - 1 {
      var init := sections[..|sections| - 1];
      HobBaseIs(init, if i == |sections| then |init| else i);
    }
  }
}
