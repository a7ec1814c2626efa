/** What MRTD says about the firmware: the hashed stream reads back as page operations, and they are
    every page of every section, with all of its bytes where it is extended. */
module MrtdBinding {
  import opened Common
  import opened Sequences
  import opened Tdvf
  import opened Mrtd

  /** TDH.MEM.PAGE.ADD of a page, or TDH.MR.EXTEND of 256 bytes. */
  datatype Op = Add(gpa: Word64) | Extend(gpa: Word64, chunk: ByteString)

  // ----- reading the stream -----

  predicate AllZero(b: ByteString) {
    forall i :: 0 <= i < |b| ==> b[i] == 0
  }

  /** A 128-byte block: the operation's name padded to 16 bytes, the address, and zeros. */
  predicate BlockIs(b: ByteString, name: string) {
    && |b| >= 128 && |name| <= 16 && (forall i :: 0 <= i < |name| ==> b[i] == name[i] as int)
    && AllZero(b[|name|..16]) && AllZero(b[24..128])
  }

  function BlockAddress(b: ByteString): Word64
    requires |b| >= 128
  {
    FromLeBound(b[16..24]);
    WordSizes();
    FromLe(b[16..24])
  }

  /** The operations a hashed stream stands for. */
  function ReadOps(b: ByteString): Option<seq<Op>>
    decreases |b|
  {
    if b == [] then Some([])
    else if BlockIs(b, "MEM.PAGE.ADD") then Then(Add(BlockAddress(b)), ReadOps(b[128..]))
    else if BlockIs(b, "MR.EXTEND") && |b| >= 384 then Then(Extend(BlockAddress(b), b[128..384]), ReadOps(b[384..]))
    else None
  }

  function Then(op: Op, rest: Option<seq<Op>>): Option<seq<Op>> {
    if rest.None? then None else Some([op] + rest.value)
  }

  function OpBytes(op: Op): ByteString {
    match op
    case Add(gpa) => Block(MEM_PAGE_ADD, gpa)
    case Extend(gpa, chunk) => Block(MR_EXTEND, gpa) + chunk
  }

  predicate Chunked(ops: seq<Op>) {
    forall i :: 0 <= i < |ops| && ops[i].Extend? ==> |ops[i].chunk| == 256
  }

  lemma TagsAre()
    ensures |MEM_PAGE_ADD| == |"MEM.PAGE.ADD"| == 12 && |MR_EXTEND| == |"MR.EXTEND"| == 9
    ensures forall i :: 0 <= i < 12 ==> MEM_PAGE_ADD[i] == "MEM.PAGE.ADD"[i] as int
    ensures forall i :: 0 <= i < 9 ==> MR_EXTEND[i] == "MR.EXTEND"[i] as int
  {
  }

  lemma BlockReads(tag: ByteString, name: string, gpa: Word64, rest: ByteString)
    requires |tag| == |name| <= 16 && forall i :: 0 <= i < |tag| ==> tag[i] == name[i] as int
    ensures var b := Block(tag, gpa) + rest;
            BlockIs(b, name) && BlockAddress(b) == gpa && b[128..] == rest
  {
    hide Le, FromLe;
    var b := Block(tag, gpa) + rest;
    assert b[16..24] == Le(gpa, 8);
    WordSizes();
    LeRoundTrip(gpa, 8);
  }

  lemma NotBoth(b: ByteString)
    requires BlockIs(b, "MR.EXTEND")
    ensures !BlockIs(b, "MEM.PAGE.ADD")
  {
    assert b[1] == 'R' as int;
  }

  lemma OpReads(op: Op, rest: ByteString)
    requires op.Extend? ==> |op.chunk| == 256
    ensures ReadOps(OpBytes(op) + rest) == Then(op, ReadOps(rest))
  {
    TagsAre();
    match op
    case Add(gpa) =>
      BlockReads(MEM_PAGE_ADD, "MEM.PAGE.ADD", gpa, rest);
      hide BlockIs, BlockAddress, Block;
    case Extend(gpa, chunk) =>
      BlockReads(MR_EXTEND, "MR.EXTEND", gpa, chunk + rest);
      Assoc(Block(MR_EXTEND, gpa), chunk, rest);
      var b := Block(MR_EXTEND, gpa) + (chunk + rest);
      NotBoth(b);
      hide BlockIs, BlockAddress, Block;
      assert b[128..384] == (chunk + rest)[..256] == chunk;
      assert b[384..] == (chunk + rest)[256..] == rest;
  }

  lemma {:induction false} OpsRead(ops: seq<Op>)
    requires Chunked(ops)
    ensures ReadOps(FlatMap(ops, OpBytes)) == Some(ops)
    decreases |ops|
  {
    hide OpBytes, ReadOps;
    if ops == [] {
      NothingReads();
    } else {
      var op, rest := ops[0], ops[1..];
      assert ops == [op] + rest;
      FlatMapSplit([op], rest, OpBytes);
      FlatMapOne(op, OpBytes);
      hide FlatMap;
      OpsRead(rest);
      OpReads(op, FlatMap(rest, OpBytes));
    }
  }

  lemma NothingReads()
    ensures FlatMap([], OpBytes) == [] && ReadOps([]) == Some([])
  {
  }

  // ----- the operations of a section, in closed form -----

  predicate Extended(s: Section) {
    s.attributes % 2 == 1
  }

  predicate Augmented(s: Section) {
    s.attributes / 2 % 2 == 1
  }

  function Pages(s: Section): nat {
    s.memoryDataSize / 4096
  }

  /** Every page of the section, in order. */
  function AddOps(s: Section): seq<Op>
    requires s.memoryAddress + s.memoryDataSize < 0x1_0000_0000_0000_0000
  {
    if Augmented(s) then [] else seq(Pages(s), p requires 0 <= p < Pages(s) => Add(s.memoryAddress + 4096 * p))
  }

  /** Every 256 bytes of the section, in order. */
  function ExtendOps(fw: ByteString, s: Section): seq<Op>
    requires WellFormed(s, |fw|)
  {
    if !Extended(s) then []
    else seq(16 * Pages(s), k requires 0 <= k < 16 * Pages(s) => ChunkOp(fw, s, k))
  }

  function ChunkOp(fw: ByteString, s: Section, k: nat): (op: Op)
    requires WellFormed(s, |fw|) && Extended(s) && k < 16 * Pages(s)
    ensures op.Extend? && |op.chunk| == 256
  {
    Extend(s.memoryAddress + 256 * k, fw[s.dataOffset + 256 * k..s.dataOffset + 256 * k + 256])
  }

  /** Page by page: the page, then its sixteen chunks. */
  function PageOps(fw: ByteString, s: Section, p: nat): seq<Op>
    requires WellFormed(s, |fw|) && p < Pages(s)
  {
    PageAddOps(s, p) + PageExtendOps(fw, s, p)
  }

  function PageAddOps(s: Section, p: nat): seq<Op>
    requires s.memoryAddress + s.memoryDataSize < 0x1_0000_0000_0000_0000 && p < Pages(s)
  {
    if Augmented(s) then [] else [Add(s.memoryAddress + 4096 * p)]
  }

  function PageExtendOps(fw: ByteString, s: Section, p: nat): seq<Op>
    requires WellFormed(s, |fw|) && p < Pages(s)
  {
    if !Extended(s) then [] else FirstChunks(fw, s, p, 16)
  }

  /** The first `n` chunks of a page. */
  function FirstChunks(fw: ByteString, s: Section, page: nat, n: nat): seq<Op>
    requires WellFormed(s, |fw|) && page < Pages(s) && Extended(s) && n <= 16
  {
    seq(n, i requires 0 <= i < n => ChunkOp(fw, s, 16 * page + i))
  }

  function PagesOps(fw: ByteString, s: Section, n: nat): seq<Op>
    requires WellFormed(s, |fw|) && n <= Pages(s)
  {
    if n == 0 then [] else PagesOps(fw, s, n - 1) + PageOps(fw, s, n - 1)
  }

  function SectionOps(fw: ByteString, s: Section, order: PageAddOrder): seq<Op>
    requires WellFormed(s, |fw|)
  {
    if order == TwoPass then AddOps(s) + ExtendOps(fw, s) else PagesOps(fw, s, Pages(s))
  }

  function TableOps(fw: ByteString, sections: seq<Section>, order: PageAddOrder): seq<Op>
    requires AllWellFormed(fw, sections)
  {
    if sections == [] then []
    else TableOps(fw, sections[..|sections| - 1], order) + SectionOps(fw, sections[|sections| - 1], order)
  }

  // ----- the blocks are the operations -----

  lemma AddBytes(fwLen: nat, s: Section, page: nat)
    requires InSection(fwLen, s, page)
    ensures s.memoryAddress + 4096 * page < U64
    ensures Concat(PageAdd(fwLen, s, page))
            == FlatMap(PageAddOps(s, page), OpBytes)
  {
    hide Block;
    PageInRange(fwLen, s, page);
    if !PageAug(s) {
      ConcatOne(Block(MEM_PAGE_ADD, s.memoryAddress + page * 0x1000));
      FlatMapOne(Add(s.memoryAddress + 4096 * page), OpBytes);
    }
  }

  lemma NextChunk(fw: ByteString, s: Section, page: nat, n: nat)
    requires InSection(|fw|, s, page) && Extended(s) && n < 16
    ensures FirstChunks(fw, s, page, n + 1) == FirstChunks(fw, s, page, n) + [ChunkOp(fw, s, 16 * page + n)]
  {
    hide ChunkOp;
  }

  lemma {:induction false} ChunkBytes(fw: ByteString, s: Section, page: nat, n: nat)
    requires InSection(|fw|, s, page) && MrExtend(s) && n <= 16
    ensures Concat(Chunks(fw, s, page, n)) == FlatMap(FirstChunks(fw, s, page, n), OpBytes)
  {
    hide WellFormed, ChunkOp, OpBytes, Concat, FlatMap;
    if n == 0 {
      NoBytes();
      assert Chunks(fw, s, page, 0) == [] && FirstChunks(fw, s, page, 0) == [];
    } else {
      hide Chunks, FirstChunks;
      ChunkBytes(fw, s, page, n - 1);
      ChunkBytesNext(fw, s, page, n - 1);
    }
  }

  lemma ChunkBytesNext(fw: ByteString, s: Section, page: nat, n: nat)
    requires InSection(|fw|, s, page) && MrExtend(s) && n < 16
    requires Concat(Chunks(fw, s, page, n)) == FlatMap(FirstChunks(fw, s, page, n), OpBytes)
    ensures Concat(Chunks(fw, s, page, n + 1)) == FlatMap(FirstChunks(fw, s, page, n + 1), OpBytes)
  {
    hide WellFormed, ChunkOp, OpBytes, Concat, FlatMap, Chunks, FirstChunks, Block;
    var op, at := ChunkOp(fw, s, 16 * page + n), page * 0x1000 + n * 0x100;
    NextChunk(fw, s, page, n);
    FlatMapAppend(FirstChunks(fw, s, page, n), op, OpBytes);
    ChunkOpBytes(fw, s, page, n);
    ChunkStep([], fw, s, page, n);
    var front, b := Concat(Chunks(fw, s, page, n)), Block(MR_EXTEND, s.memoryAddress + at);
    var c := fw[s.dataOffset + at..s.dataOffset + at + 0x100];
    assert [] + front == front && [] + Concat(Chunks(fw, s, page, n + 1)) == Concat(Chunks(fw, s, page, n + 1));
    Assoc(front, b, c);
  }

  lemma ChunkOpBytes(fw: ByteString, s: Section, page: nat, i: nat)
    requires InSection(|fw|, s, page) && MrExtend(s) && i < 16
    ensures var at := page * 0x1000 + i * 0x100;
            && s.memoryAddress + at < U64 && s.dataOffset + at + 0x100 <= |fw|
            && OpBytes(ChunkOp(fw, s, 16 * page + i))
               == Block(MR_EXTEND, s.memoryAddress + at) + fw[s.dataOffset + at..s.dataOffset + at + 0x100]
  {
    hide Block;
    PageInRange(|fw|, s, page);
    assert 256 * (16 * page + i) == page * 0x1000 + i * 0x100;
  }

  lemma ExtendBytes(fw: ByteString, s: Section, page: nat)
    requires InSection(|fw|, s, page)
    ensures Concat(PageExtend(fw, s, page))
            == FlatMap(PageExtendOps(fw, s, page), OpBytes)
  {
    hide Chunks, FirstChunks, WellFormed;
    if MrExtend(s) {
      ChunkBytes(fw, s, page, 16);
    }
  }

  function AddPrefix(s: Section, n: nat): seq<Op>
    requires s.memoryAddress + s.memoryDataSize < 0x1_0000_0000_0000_0000 && n <= Pages(s)
  {
    if Augmented(s) then [] else seq(n, p requires 0 <= p < n => Add(s.memoryAddress + 4096 * p))
  }

  function ExtendPrefix(fw: ByteString, s: Section, n: nat): seq<Op>
    requires WellFormed(s, |fw|) && n <= Pages(s)
  {
    if !Extended(s) then [] else seq(16 * n, k requires 0 <= k < 16 * n => ChunkOp(fw, s, k))
  }

  lemma {:induction false} AddsBytes(fwLen: nat, s: Section, n: nat)
    requires WellFormed(s, fwLen) && n <= PageCount(s)
    ensures Concat(Adds(fwLen, s, n)) == FlatMap(AddPrefix(s, n), OpBytes)
  {
    hide Concat, FlatMap, OpBytes, PageAdd;
    if n == 0 {
      NoBytes();
      assert AddPrefix(s, 0) == [];
    } else {
      AddsBytes(fwLen, s, n - 1);
      AddBytes(fwLen, s, n - 1);
      ConcatSplit(Adds(fwLen, s, n - 1), PageAdd(fwLen, s, n - 1));
      var more := PageAddOps(s, n - 1);
      assert AddPrefix(s, n) == AddPrefix(s, n - 1) + more;
      FlatMapSplit(AddPrefix(s, n - 1), more, OpBytes);
    }
  }

  lemma NoBytes()
    ensures Concat([]) == [] && FlatMap([], OpBytes) == []
  {
  }

  lemma {:induction false} ExtendsBytes(fw: ByteString, s: Section, n: nat)
    requires WellFormed(s, |fw|) && n <= PageCount(s)
    ensures Concat(Extends(fw, s, n)) == FlatMap(ExtendPrefix(fw, s, n), OpBytes)
  {
    hide Concat, FlatMap, OpBytes, PageExtend, WellFormed;
    if n == 0 {
      NoBytes();
      assert ExtendPrefix(fw, s, 0) == [];
    } else {
      ExtendsBytes(fw, s, n - 1);
      ExtendBytes(fw, s, n - 1);
      ConcatSplit(Extends(fw, s, n - 1), PageExtend(fw, s, n - 1));
      var more := PageExtendOps(fw, s, n - 1);
      assert ExtendPrefix(fw, s, n) == ExtendPrefix(fw, s, n - 1) + more;
      FlatMapSplit(ExtendPrefix(fw, s, n - 1), more, OpBytes);
    }
  }

  lemma {:induction false} AddExtendsBytes(fw: ByteString, s: Section, n: nat)
    requires WellFormed(s, |fw|) && n <= PageCount(s)
    ensures Concat(AddExtends(fw, s, n)) == FlatMap(PagesOps(fw, s, n), OpBytes)
  {
    hide Concat, FlatMap, OpBytes, PageExtend, PageAdd, WellFormed, PageOps;
    if n == 0 {
      NoBytes();
    } else {
      AddExtendsBytes(fw, s, n - 1);
      var add, extend := PageAdd(|fw|, s, n - 1), PageExtend(fw, s, n - 1);
      PageBytes(fw, s, n - 1);
      ConcatSplit(AddExtends(fw, s, n - 1), add);
      ConcatSplit(AddExtends(fw, s, n - 1) + add, extend);
      FlatMapSplit(PagesOps(fw, s, n - 1), PageOps(fw, s, n - 1), OpBytes);
      Assoc(Concat(AddExtends(fw, s, n - 1)), Concat(add), Concat(extend));
    }
  }

  lemma PageBytes(fw: ByteString, s: Section, page: nat)
    requires InSection(|fw|, s, page)
    ensures Concat(PageAdd(|fw|, s, page)) + Concat(PageExtend(fw, s, page)) == FlatMap(PageOps(fw, s, page), OpBytes)
  {
    hide Concat, FlatMap, OpBytes, PageExtend, PageAdd, PageAddOps, PageExtendOps;
    AddBytes(|fw|, s, page);
    ExtendBytes(fw, s, page);
    FlatMapSplit(PageAddOps(s, page), PageExtendOps(fw, s, page), OpBytes);
  }

  lemma Addressed(s: Section, fwLen: nat)
    requires WellFormed(s, fwLen)
    ensures s.memoryAddress + s.memoryDataSize < 0x1_0000_0000_0000_0000
  {
  }

  lemma SectionBytesAre(fw: ByteString, s: Section, order: PageAddOrder)
    requires WellFormed(s, |fw|)
    ensures Concat(SectionBlocks(fw, s, order)) == FlatMap(SectionOps(fw, s, order), OpBytes)
  {
    hide Concat, FlatMap, OpBytes, WellFormed, PagesOps, ChunkOp;
    Addressed(s, |fw|);
    var n := PageCount(s);
    if order == TwoPass {
      AddsBytes(|fw|, s, n);
      ExtendsBytes(fw, s, n);
      ConcatSplit(Adds(|fw|, s, n), Extends(fw, s, n));
      FlatMapSplit(AddOps(s), ExtendOps(fw, s), OpBytes);
      assert AddPrefix(s, n) == AddOps(s) && ExtendPrefix(fw, s, n) == ExtendOps(fw, s);
    } else {
      AddExtendsBytes(fw, s, n);
    }
  }

  lemma {:induction false} StreamBytes(fw: ByteString, sections: seq<Section>, order: PageAddOrder)
    requires AllWellFormed(fw, sections)
    ensures Stream(fw, sections, order) == FlatMap(TableOps(fw, sections, order), OpBytes)
  {
    hide Concat, FlatMap, OpBytes, WellFormed, SectionOps, SectionBlocks;
    if sections == [] {
      NoBytes();
    } else {
      var init, last := sections[..|sections| - 1], sections[|sections| - 1];
      StreamBytes(fw, init, order);
      SectionBytesAre(fw, last, order);
      ConcatSplit(Blocks(fw, init, order), SectionBlocks(fw, last, order));
      FlatMapSplit(TableOps(fw, init, order), SectionOps(fw, last, order), OpBytes);
    }
  }

  lemma PageChunked(fw: ByteString, s: Section, p: nat)
    requires WellFormed(s, |fw|) && p < Pages(s)
    ensures Chunked(PageOps(fw, s, p))
  {
    hide WellFormed, ChunkOp;
    var ops, n := PageOps(fw, s, p), if Augmented(s) then 0 else 1;
    forall i | n <= i < |ops|
      ensures ops[i].Extend? && |ops[i].chunk| == 256
    {
      assert ops[i] == ChunkOp(fw, s, 16 * p + (i - n));
    }
  }

  lemma {:induction false} PagesChunked(fw: ByteString, s: Section, n: nat)
    requires WellFormed(s, |fw|) && n <= Pages(s)
    ensures Chunked(PagesOps(fw, s, n))
  {
    hide WellFormed, PageOps;
    if n > 0 {
      PagesChunked(fw, s, n - 1);
      PageChunked(fw, s, n - 1);
    }
  }

  lemma SectionChunked(fw: ByteString, s: Section, order: PageAddOrder)
    requires WellFormed(s, |fw|)
    ensures Chunked(SectionOps(fw, s, order))
  {
    hide WellFormed;
    PagesChunked(fw, s, Pages(s));
    hide PagesOps;
  }

  lemma {:induction false} TableChunked(fw: ByteString, sections: seq<Section>, order: PageAddOrder)
    requires AllWellFormed(fw, sections)
    ensures Chunked(TableOps(fw, sections, order))
  {
    hide WellFormed, SectionOps;
    if sections != [] {
      TableChunked(fw, sections[..|sections| - 1], order);
      SectionChunked(fw, sections[|sections| - 1], order);
    }
  }

  /** The stream reads back as exactly the operations of the table: every page that is not augmented,
      and every 256 bytes of every section that is extended, in the order chosen. */
  lemma StreamReads(fw: ByteString, sections: seq<Section>, order: PageAddOrder)
    requires AllWellFormed(fw, sections)
    ensures ReadOps(Stream(fw, sections, order)) == Some(TableOps(fw, sections, order))
  {
    hide Stream, TableOps, ReadOps, FlatMap, Chunked;
    StreamBytes(fw, sections, order);
    TableChunked(fw, sections, order);
    OpsRead(TableOps(fw, sections, order));
  }

  // ----- how many -----

  lemma {:induction false} PagesCount(fw: ByteString, s: Section, n: nat)
    requires WellFormed(s, |fw|) && n <= Pages(s)
    ensures |PagesOps(fw, s, n)| == (if Augmented(s) then 0 else n) + (if Extended(s) then 16 * n else 0)
  {
    hide WellFormed, ChunkOp;
    if n > 0 {
      PagesCount(fw, s, n - 1);
    }
  }

  /** In either order a section costs one add per page it adds and sixteen extends per page it
      extends. */
  lemma SectionCount(fw: ByteString, s: Section, order: PageAddOrder)
    requires WellFormed(s, |fw|)
    ensures |SectionOps(fw, s, order)|
            == (if Augmented(s) then 0 else Pages(s)) + (if Extended(s) then 16 * Pages(s) else 0)
  {
    hide WellFormed, ChunkOp;
    PagesCount(fw, s, Pages(s));
  }

  // ----- what equal streams mean -----

  /** The bytes of the firmware the section measures. */
  function Measured(fw: ByteString, s: Section): ByteString
    requires WellFormed(s, |fw|) && Extended(s)
  {
    fw[s.dataOffset..s.dataOffset + s.memoryDataSize]
  }

  lemma SameChunks(fw: ByteString, fw': ByteString, s: Section)
    requires WellFormed(s, |fw|) && WellFormed(s, |fw'|) && Extended(s)
    requires forall k :: 0 <= k < 16 * Pages(s) ==> ChunkOp(fw, s, k) == ChunkOp(fw', s, k)
    ensures Measured(fw, s) == Measured(fw', s)
  {
    var a, b := Measured(fw, s), Measured(fw', s);
    forall x | 0 <= x < s.memoryDataSize
      ensures a[x] == b[x]
    {
      var k := x / 256;
      assert ChunkOp(fw, s, k) == ChunkOp(fw', s, k);
      SameByte(fw, fw', s.dataOffset, k, x);
    }
  }

  lemma SameByte(fw: ByteString, fw': ByteString, o: nat, k: nat, x: nat)
    requires 256 * k <= x < 256 * k + 256 && o + 256 * k + 256 <= |fw| && o + 256 * k + 256 <= |fw'|
    requires fw[o + 256 * k..o + 256 * k + 256] == fw'[o + 256 * k..o + 256 * k + 256]
    ensures fw[o + x] == fw'[o + x]
  {
    var a, b := fw[o + 256 * k..o + 256 * k + 256], fw'[o + 256 * k..o + 256 * k + 256];
    assert a[x - 256 * k] == fw[o + x] && b[x - 256 * k] == fw'[o + x];
  }

  lemma {:induction false} SamePages(fw: ByteString, fw': ByteString, s: Section, n: nat, p: nat)
    requires WellFormed(s, |fw|) && WellFormed(s, |fw'|) && p < n <= Pages(s)
    requires PagesOps(fw, s, n) == PagesOps(fw', s, n)
    ensures PageOps(fw, s, p) == PageOps(fw', s, p)
    decreases n
  {
    hide WellFormed, ChunkOp;
    var a, b := PagesOps(fw, s, n - 1), PageOps(fw, s, n - 1);
    var a', b' := PagesOps(fw', s, n - 1), PageOps(fw', s, n - 1);
    PagesCount(fw, s, n - 1);
    PagesCount(fw', s, n - 1);
    assert |a| == |a'|;
    assert a == (a + b)[..|a|] && a' == (a' + b')[..|a|] && b == (a + b)[|a|..] && b' == (a' + b')[|a|..];
    if p < n - 1 {
      SamePages(fw, fw', s, n - 1, p);
    }
  }

  lemma ChunkOfPage(fw: ByteString, s: Section, k: nat)
    requires WellFormed(s, |fw|) && Extended(s) && k < 16 * Pages(s)
    ensures k / 16 < Pages(s)
    ensures var ops := PageOps(fw, s, k / 16);
            var at := (if Augmented(s) then 0 else 1) + k % 16;
            at < |ops| && ops[at] == ChunkOp(fw, s, k)
  {
    hide WellFormed, ChunkOp;
  }

  lemma SameSection(fw: ByteString, fw': ByteString, s: Section, order: PageAddOrder)
    requires WellFormed(s, |fw|) && WellFormed(s, |fw'|) && Extended(s)
    requires SectionOps(fw, s, order) == SectionOps(fw', s, order)
    ensures Measured(fw, s) == Measured(fw', s)
  {
    hide WellFormed, ChunkOp, PagesOps, PageOps, Measured;
    Addressed(s, |fw|);
    forall k | 0 <= k < 16 * Pages(s)
      ensures ChunkOp(fw, s, k) == ChunkOp(fw', s, k)
    {
      if order == TwoPass {
        var n := |AddOps(s)|;
        assert SectionOps(fw, s, order)[n + k] == ExtendOps(fw, s)[k];
        assert SectionOps(fw', s, order)[n + k] == ExtendOps(fw', s)[k];
      } else {
        ChunkOfPage(fw, s, k);
        ChunkOfPage(fw', s, k);
        SamePages(fw, fw', s, Pages(s), k / 16);
      }
    }
    SameChunks(fw, fw', s);
  }

  /** One table, one order, two firmwares with the same operations: the same bytes wherever the table
      extends. */
  lemma {:induction false} SameTable(
    fw: ByteString, fw': ByteString, sections: seq<Section>, order: PageAddOrder, s: Section)
    requires AllWellFormed(fw, sections) && AllWellFormed(fw', sections) && s in sections && Extended(s)
    requires TableOps(fw, sections, order) == TableOps(fw', sections, order)
    ensures Measured(fw, s) == Measured(fw', s)
    decreases |sections|
  {
    hide WellFormed, SectionOps, Measured;
    var init, last := sections[..|sections| - 1], sections[|sections| - 1];
    var a, b := TableOps(fw, init, order), SectionOps(fw, last, order);
    var a', b' := TableOps(fw', init, order), SectionOps(fw', last, order);
    SectionCount(fw, last, order);
    SectionCount(fw', last, order);
    assert |a| == |a'|;
    assert a == (a + b)[..|a|] && a' == (a' + b')[..|a|] && b == (a + b)[|a|..] && b' == (a' + b')[|a|..];
    if s == last {
      SameSection(fw, fw', s, order);
    } else {
      assert s in init;
      SameTable(fw, fw', init, order, s);
    }
  }

  /** Equal MRTDs, whatever the two tables and orders: the same sequence of page operations, or a
      collision between the two named streams. */
  lemma MrtdBinds(
    sha: Sha384, fw: ByteString, sections: seq<Section>, order: PageAddOrder,
    fw': ByteString, sections': seq<Section>, order': PageAddOrder)
    requires AllWellFormed(fw, sections) && AllWellFormed(fw', sections')
    requires sha(Stream(fw, sections, order)) == sha(Stream(fw', sections', order'))
    ensures || TableOps(fw, sections, order) == TableOps(fw', sections', order')
            || Collision(sha, Stream(fw, sections, order), Stream(fw', sections', order'))
  {
    hide Stream, TableOps, ReadOps, AllWellFormed;
    StreamReads(fw, sections, order);
    StreamReads(fw', sections', order');
  }

  /** With one table and one order: the same firmware bytes in every extended section. */
  lemma MrtdBindsContents(
    sha: Sha384, fw: ByteString, fw': ByteString, sections: seq<Section>, order: PageAddOrder, s: Section)
    requires AllWellFormed(fw, sections) && AllWellFormed(fw', sections) && s in sections && s.attributes % 2 == 1
    requires sha(Stream(fw, sections, order)) == sha(Stream(fw', sections, order))
    ensures s.dataOffset + s.memoryDataSize <= |fw| && s.dataOffset + s.memoryDataSize <= |fw'|
    ensures || fw[s.dataOffset..s.dataOffset + s.memoryDataSize] == fw'[s.dataOffset..s.dataOffset + s.memoryDataSize]
            || Collision(sha, Stream(fw, sections, order), Stream(fw', sections, order))
  {
    hide Stream, TableOps;
    MrtdBinds(sha, fw, sections, order, fw', sections, order);
    if TableOps(fw, sections, order) == TableOps(fw', sections, order) {
      SameTable(fw, fw', sections, order, s);
    }
  }
}
