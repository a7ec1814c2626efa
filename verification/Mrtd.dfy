/** MRTD: the page log QEMU hashes for a TDVF section table, in either page order. */
module Mrtd {
  import opened Common
  import opened Sequences
  import opened Tdvf

  datatype PageAddOrder = TwoPass | SinglePass

  /** "MEM.PAGE.ADD" and "MR.EXTEND". */
  const MEM_PAGE_ADD: ByteString := [0x4d, 0x45, 0x4d, 0x2e, 0x50, 0x41, 0x47, 0x45, 0x2e, 0x41, 0x44, 0x44]
  const MR_EXTEND: ByteString := [0x4d, 0x52, 0x2e, 0x45, 0x58, 0x54, 0x45, 0x4e, 0x44]

  /** The 128-byte block naming an operation and the guest address it applies to. */
  function Block(tag: ByteString, gpa: Word64): (b: ByteString)
    requires |tag| <= 16
    ensures |b| == 128
  {
    tag + Zeros(16 - |tag|) + Le(gpa, 8) + Zeros(104)
  }

  /** `page` is one of the section's pages and none of its addresses or bytes are out of range. */
  predicate InSection(fwLen: nat, s: Section, page: nat) {
    WellFormed(s, fwLen) && page < PageCount(s)
  }

  lemma PageInRange(fwLen: nat, s: Section, page: nat)
    requires InSection(fwLen, s, page)
    ensures page * 0x1000 + 0x1000 <= s.memoryDataSize
    ensures s.memoryAddress + page * 0x1000 + 0x1000 < U64
    ensures MrExtend(s) ==> s.dataOffset + page * 0x1000 + 0x1000 <= fwLen
  {
  }

  // ----- the blocks, in order -----

  function PageAdd(fwLen: nat, s: Section, page: nat): seq<ByteString>
    requires InSection(fwLen, s, page)
  {
    PageInRange(fwLen, s, page);
    if PageAug(s) then [] else [Block(MEM_PAGE_ADD, s.memoryAddress + page * 0x1000)]
  }

  /** The first `n` of the sixteen 256-byte chunks of a page, each behind its block. */
  function Chunks(fw: ByteString, s: Section, page: nat, n: nat): (r: seq<ByteString>)
    requires InSection(|fw|, s, page) && MrExtend(s) && n <= 16
    ensures |r| == 2 * n
  {
    if n == 0 then []
    else
      PageInRange(|fw|, s, page);
      var at := page * 0x1000 + (n - 1) * 0x100;
      Chunks(fw, s, page, n - 1)
      + [Block(MR_EXTEND, s.memoryAddress + at), fw[s.dataOffset + at..s.dataOffset + at + 0x100]]
  }

  function PageExtend(fw: ByteString, s: Section, page: nat): seq<ByteString>
    requires InSection(|fw|, s, page)
  {
    if MrExtend(s) then Chunks(fw, s, page, 16) else []
  }

  function Adds(fwLen: nat, s: Section, n: nat): seq<ByteString>
    requires WellFormed(s, fwLen) && n <= PageCount(s)
  {
    if n == 0 then [] else Adds(fwLen, s, n - 1) + PageAdd(fwLen, s, n - 1)
  }

  function Extends(fw: ByteString, s: Section, n: nat): seq<ByteString>
    requires WellFormed(s, |fw|) && n <= PageCount(s)
  {
    if n == 0 then [] else Extends(fw, s, n - 1) + PageExtend(fw, s, n - 1)
  }

  function AddExtends(fw: ByteString, s: Section, n: nat): seq<ByteString>
    requires WellFormed(s, |fw|) && n <= PageCount(s)
  {
    if n == 0 then []
    else AddExtends(fw, s, n - 1) + PageAdd(|fw|, s, n - 1) + PageExtend(fw, s, n - 1)
  }

  function SectionBlocks(fw: ByteString, s: Section, order: PageAddOrder): seq<ByteString>
    requires WellFormed(s, |fw|)
  {
    var n := PageCount(s);
    match order
    case TwoPass => Adds(|fw|, s, n) + Extends(fw, s, n)
    case SinglePass => AddExtends(fw, s, n)
  }

  predicate AllWellFormed(fw: ByteString, sections: seq<Section>) {
    forall s :: s in sections ==> WellFormed(s, |fw|)
  }

  /** Everything the MRTD hasher absorbs, update by update. */
  function Blocks(fw: ByteString, sections: seq<Section>, order: PageAddOrder): seq<ByteString>
    requires AllWellFormed(fw, sections)
  {
    if sections == [] then []
    else
      var last := sections[|sections| - 1];
      Blocks(fw, sections[..|sections| - 1], order) + SectionBlocks(fw, last, order)
  }

  function Stream(fw: ByteString, sections: seq<Section>, order: PageAddOrder): ByteString
    requires AllWellFormed(fw, sections)
  {
    Concat(Blocks(fw, sections, order))
  }

  // ----- the nested loops; `absorbed` is the hasher's input so far -----

  method MemPageAdd(absorbed: ByteString, ghost fwLen: nat, s: Section, page: nat) returns (r: Result<ByteString>)
    ensures InSection(fwLen, s, page) ==> r == Ok(absorbed + Concat(PageAdd(fwLen, s, page)))
  {
    hide Block, WellFormed;
    ConcatNothing(absorbed);
    if PageAug(s) {
      return Ok(absorbed);
    }
    var gpa := s.memoryAddress + page * 0x1000;
    if InSection(fwLen, s, page) {
      PageInRange(fwLen, s, page);
      ConcatOne(Block(MEM_PAGE_ADD, gpa));
    }
    if gpa >= U64 {
      return Err;
    }
    return Ok(absorbed + Block(MEM_PAGE_ADD, gpa));
  }

  method MrExtendPage(absorbed: ByteString, fw: ByteString, s: Section, page: nat) returns (r: Result<ByteString>)
    ensures InSection(|fw|, s, page) ==> r == Ok(absorbed + Concat(PageExtend(fw, s, page)))
  {
    hide Block, WellFormed, PageCount;
    ConcatNothing(absorbed);
    if !MrExtend(s) {
      return Ok(absorbed);
    }
    var h := absorbed;
    for i := 0 to 16
      invariant InSection(|fw|, s, page) ==> h == absorbed + Concat(Chunks(fw, s, page, i))
    {
      var at := page * 0x1000 + i * 0x100;
      if InSection(|fw|, s, page) {
        PageInRange(|fw|, s, page);
      }
      if s.memoryAddress + at >= U64 {
        return Err;
      }
      h := h + Block(MR_EXTEND, s.memoryAddress + at);
      if s.dataOffset + at + 0x100 > |fw| {
        return Err;
      }
      if InSection(|fw|, s, page) {
        ChunkStep(absorbed, fw, s, page, i);
      }
      h := h + fw[s.dataOffset + at..s.dataOffset + at + 0x100];
    }
    return Ok(h);
  }

  lemma ChunkStep(absorbed: ByteString, fw: ByteString, s: Section, page: nat, i: nat)
    requires InSection(|fw|, s, page) && MrExtend(s) && i < 16
    ensures var at := page * 0x1000 + i * 0x100;
            s.memoryAddress + at < U64 && s.dataOffset + at + 0x100 <= |fw|
            && absorbed + Concat(Chunks(fw, s, page, i + 1)) ==
               absorbed + Concat(Chunks(fw, s, page, i)) + Block(MR_EXTEND, s.memoryAddress + at)
               + fw[s.dataOffset + at..s.dataOffset + at + 0x100]
  {
    hide Block, WellFormed, Concat, PageCount;
    PageInRange(|fw|, s, page);
    var at := page * 0x1000 + i * 0x100;
    var b, c := Block(MR_EXTEND, s.memoryAddress + at), fw[s.dataOffset + at..s.dataOffset + at + 0x100];
    var front := Chunks(fw, s, page, i);
    assert Chunks(fw, s, page, i + 1) == front + [b, c];
    hide Chunks;
    ConcatPair(front, b, c);
    Assoc(Concat(front), b, c);
    Assoc(absorbed, Concat(front), b + c);
    Assoc(absorbed + Concat(front), b, c);
  }

  lemma ConcatOne(b: ByteString)
    ensures Concat([b]) == b
  {
    assert [b][..0] == [];
    assert Concat([]) + b == b;
  }

  lemma ConcatPair(front: seq<ByteString>, b: ByteString, c: ByteString)
    ensures Concat(front + [b, c]) == Concat(front) + (b + c)
  {
    hide Concat;
    assert [b] + [c] == [b, c];
    ConcatSplit(front, [b, c]);
    ConcatSplit([b], [c]);
    ConcatOne(b);
    ConcatOne(c);
  }

  /** One section, in the order QEMU's version calls for. */
  method MeasureSection(absorbed: ByteString, fw: ByteString, s: Section, order: PageAddOrder)
    returns (r: Result<ByteString>)
    ensures WellFormed(s, |fw|) ==> r == Ok(absorbed + Concat(SectionBlocks(fw, s, order)))
  {
    hide WellFormed, PageAdd, PageExtend, PageCount, Concat;
    var h := absorbed;
    var n := PageCount(s);
    ConcatNothing(absorbed);
    match order {
      case TwoPass =>
        for page := 0 to n
          invariant WellFormed(s, |fw|) ==> h == absorbed + Concat(Adds(|fw|, s, page))
        {
          h :- MemPageAdd(h, |fw|, s, page);
          if WellFormed(s, |fw|) {
            ConcatStep(absorbed, Adds(|fw|, s, page), PageAdd(|fw|, s, page));
          }
        }
        ghost var mid := h;
        ConcatNothing(mid);
        for page := 0 to n
          invariant WellFormed(s, |fw|) ==> h == mid + Concat(Extends(fw, s, page))
        {
          h :- MrExtendPage(h, fw, s, page);
          if WellFormed(s, |fw|) {
            ConcatStep(mid, Extends(fw, s, page), PageExtend(fw, s, page));
          }
        }
        if WellFormed(s, |fw|) {
          ConcatStep(absorbed, Adds(|fw|, s, n), Extends(fw, s, n));
        }
      case SinglePass =>
        for page := 0 to n
          invariant WellFormed(s, |fw|) ==> h == absorbed + Concat(AddExtends(fw, s, page))
        {
          h :- MemPageAdd(h, |fw|, s, page);
          h :- MrExtendPage(h, fw, s, page);
          if WellFormed(s, |fw|) {
            var front, add := AddExtends(fw, s, page), PageAdd(|fw|, s, page);
            ConcatStep(absorbed, front, add);
            ConcatStep(absorbed, front + add, PageExtend(fw, s, page));
          }
        }
    }
    return Ok(h);
  }

  lemma ConcatNothing(a: ByteString)
    ensures a + Concat([]) == a
  {
  }

  lemma ConcatStep(absorbed: ByteString, a: seq<ByteString>, b: seq<ByteString>)
    ensures absorbed + Concat(a + b) == absorbed + Concat(a) + Concat(b)
  {
    hide Concat;
    ConcatSplit(a, b);
    Assoc(absorbed, Concat(a), Concat(b));
  }

  /** `compute_mrtd`: on any well-formed table it succeeds and hashes exactly the stream. */
  method ComputeMrtd(fw: ByteString, sections: seq<Section>, order: PageAddOrder, sha: Sha384)
    returns (r: Result<ByteString>)
    ensures AllWellFormed(fw, sections) ==> r == Ok(sha(Stream(fw, sections, order)))
  {
    hide WellFormed, SectionBlocks, Concat;
    var h: ByteString := [];
    ConcatNothing([]);
    for i := 0 to |sections|
      invariant AllWellFormed(fw, sections) ==> h == Stream(fw, sections[..i], order)
    {
      h :- MeasureSection(h, fw, sections[i], order);
      if AllWellFormed(fw, sections) {
        assert sections[..i + 1][..i] == sections[..i];
        ConcatSplit(Blocks(fw, sections[..i], order), SectionBlocks(fw, sections[i], order));
      }
    }
    assert sections[..|sections|] == sections;
    return Ok(sha(h));
  }

  // ----- the two orders -----

  lemma {:induction false} SameBlocksPerSection(fw: ByteString, s: Section, n: nat)
    requires WellFormed(s, |fw|) && n <= PageCount(s)
    ensures multiset(Adds(|fw|, s, n) + Extends(fw, s, n)) == multiset(AddExtends(fw, s, n))
  {
    hide WellFormed, PageAdd, PageExtend, PageCount;
    if n > 0 {
      SameBlocksPerSection(fw, s, n - 1);
    }
  }

  /** Both orders absorb the same multiset of blocks. */
  lemma {:induction false} SameBlocks(fw: ByteString, sections: seq<Section>)
    requires AllWellFormed(fw, sections)
    ensures multiset(Blocks(fw, sections, TwoPass)) == multiset(Blocks(fw, sections, SinglePass))
  {
    if sections != [] {
      SameBlocks(fw, sections[..|sections| - 1]);
      var last := sections[|sections| - 1];
      SameBlocksPerSection(fw, last, PageCount(last));
    }
  }

  /** More than one page, each both added and extended: the one case where the order shows. */
  predicate OrderSensitive(s: Section) {
    PageCount(s) >= 2 && !PageAug(s) && MrExtend(s)
  }

  lemma {:induction false} OneKind(fw: ByteString, s: Section, n: nat)
    requires WellFormed(s, |fw|) && n <= PageCount(s)
    requires !MrExtend(s) || PageAug(s)
    ensures if MrExtend(s) then Adds(|fw|, s, n) == [] && AddExtends(fw, s, n) == Extends(fw, s, n)
            else Extends(fw, s, n) == [] && AddExtends(fw, s, n) == Adds(|fw|, s, n)
  {
    hide WellFormed, Block, Chunks;
    if n > 0 {
      OneKind(fw, s, n - 1);
    }
  }

  lemma SectionOrderIrrelevant(fw: ByteString, s: Section)
    requires WellFormed(s, |fw|) && !OrderSensitive(s)
    ensures SectionBlocks(fw, s, TwoPass) == SectionBlocks(fw, s, SinglePass)
  {
    var n := PageCount(s);
    if n < 2 {
      if n == 1 {
        assert Adds(|fw|, s, 1) == Adds(|fw|, s, 0) + PageAdd(|fw|, s, 0);
        assert Extends(fw, s, 1) == Extends(fw, s, 0) + PageExtend(fw, s, 0);
        assert AddExtends(fw, s, 1) == AddExtends(fw, s, 0) + PageAdd(|fw|, s, 0) + PageExtend(fw, s, 0);
      }
    } else {
      OneKind(fw, s, n);
    }
  }

  lemma {:induction false} AddsStart(fw: ByteString, s: Section, n: nat)
    requires WellFormed(s, |fw|) && 2 <= n <= PageCount(s) && !PageAug(s)
    ensures s.memoryAddress + 0x1000 < U64
    ensures [Block(MEM_PAGE_ADD, s.memoryAddress), Block(MEM_PAGE_ADD, s.memoryAddress + 0x1000)] <= Adds(|fw|, s, n)
  {
    hide Block, WellFormed;
    PageInRange(|fw|, s, 1);
    if n == 2 {
      assert Adds(|fw|, s, 1) == Adds(|fw|, s, 0) + PageAdd(|fw|, s, 0);
      assert Adds(|fw|, s, 2) == Adds(|fw|, s, 1) + PageAdd(|fw|, s, 1);
    } else {
      AddsStart(fw, s, n - 1);
    }
  }

  lemma {:induction false} AddExtendsStart(fw: ByteString, s: Section, n: nat)
    requires WellFormed(s, |fw|) && 1 <= n <= PageCount(s) && !PageAug(s) && MrExtend(s)
    ensures [Block(MEM_PAGE_ADD, s.memoryAddress), Block(MR_EXTEND, s.memoryAddress)] <= AddExtends(fw, s, n)
  {
    hide Block, WellFormed;
    if n == 1 {
      ChunksStart(fw, s, 0, 16);
      assert AddExtends(fw, s, 1) == AddExtends(fw, s, 0) + PageAdd(|fw|, s, 0) + PageExtend(fw, s, 0);
    } else {
      AddExtendsStart(fw, s, n - 1);
    }
  }

  lemma {:induction false} ChunksStart(fw: ByteString, s: Section, page: nat, n: nat)
    requires InSection(|fw|, s, page) && MrExtend(s) && 1 <= n <= 16
    ensures s.memoryAddress + page * 0x1000 < U64
    ensures Chunks(fw, s, page, n)[0] == Block(MR_EXTEND, s.memoryAddress + page * 0x1000)
  {
    hide Block;
    PageInRange(|fw|, s, page);
    if n == 1 {
      assert Chunks(fw, s, page, 0) == [];
    } else {
      ChunksStart(fw, s, page, n - 1);
    }
  }

  /** A list that starts with two 128-byte blocks flattens to bytes that start with them. */
  lemma {:induction false} ConcatStart(a: ByteString, b: ByteString, blocks: seq<ByteString>)
    requires [a, b] <= blocks
    ensures a + b <= Concat(blocks)
  {
    hide Concat;
    assert blocks == [a, b] + blocks[2..];
    ConcatPair([], a, b);
    assert [] + [a, b] == [a, b];
    ConcatNothing([]);
    ConcatSplit([a, b], blocks[2..]);
  }

  lemma SectionOrderShows(fw: ByteString, s: Section)
    requires WellFormed(s, |fw|) && OrderSensitive(s)
    ensures Concat(SectionBlocks(fw, s, TwoPass)) != Concat(SectionBlocks(fw, s, SinglePass))
  {
    hide WellFormed, Adds, Extends, AddExtends, Concat;
    var n := PageCount(s);
    AddsStart(fw, s, n);
    AddExtendsStart(fw, s, n);
    var a, b, c := Block(MEM_PAGE_ADD, s.memoryAddress), Block(MEM_PAGE_ADD, s.memoryAddress + 0x1000),
                   Block(MR_EXTEND, s.memoryAddress);
    ConcatStart(a, b, SectionBlocks(fw, s, TwoPass));
    ConcatStart(a, c, SectionBlocks(fw, s, SinglePass));
    assert (a + b)[129] == 0x45 && (a + c)[129] == 0x52;
  }

  lemma {:induction false} SameLength(fw: ByteString, s: Section, n: nat)
    requires WellFormed(s, |fw|) && n <= PageCount(s)
    ensures |Concat(Adds(|fw|, s, n))| + |Concat(Extends(fw, s, n))| == |Concat(AddExtends(fw, s, n))|
  {
    hide WellFormed, PageAdd, PageExtend, PageCount;
    if n > 0 {
      SameLength(fw, s, n - 1);
      hide Concat;
      var add, extend := PageAdd(|fw|, s, n - 1), PageExtend(fw, s, n - 1);
      ConcatSplit(Adds(|fw|, s, n - 1), add);
      ConcatSplit(Extends(fw, s, n - 1), extend);
      ConcatSplit(AddExtends(fw, s, n - 1), add);
      ConcatSplit(AddExtends(fw, s, n - 1) + add, extend);
    }
  }

  lemma SplitEqual(a: ByteString, b: ByteString, c: ByteString, d: ByteString)
    requires |b| == |d|
    ensures a + b == c + d <==> a == c && b == d
  {
    if a + b == c + d {
      assert |a| == |c|;
      assert a == (a + b)[..|a|] && b == (a + b)[|a|..];
    }
  }

  /** The hashed bytes are the same in both orders exactly when no section is order-sensitive. */
  lemma {:induction false} SameStream(fw: ByteString, sections: seq<Section>)
    requires AllWellFormed(fw, sections)
    ensures Stream(fw, sections, TwoPass) == Stream(fw, sections, SinglePass) <==>
            forall s :: s in sections ==> !OrderSensitive(s)
  {
    if sections != [] {
      var init, last := sections[..|sections| - 1], sections[|sections| - 1];
      SameStream(fw, init);
      var two, one := SectionBlocks(fw, last, TwoPass), SectionBlocks(fw, last, SinglePass);
      SameLength(fw, last, PageCount(last));
      ConcatSplit(Adds(|fw|, last, PageCount(last)), Extends(fw, last, PageCount(last)));
      hide Concat;
      if OrderSensitive(last) {
        SectionOrderShows(fw, last);
      } else {
        SectionOrderIrrelevant(fw, last);
      }
      ConcatSplit(Blocks(fw, init, TwoPass), two);
      ConcatSplit(Blocks(fw, init, SinglePass), one);
      hide SectionBlocks, OrderSensitive, WellFormed;
      SplitEqual(Stream(fw, init, TwoPass), Concat(two), Stream(fw, init, SinglePass), Concat(one));
      InitLast(sections);
    }
  }

  /** The two MRTD candidates differ only if the order shows, and agree then only on a collision. */
  lemma MrtdCandidates(fw: ByteString, sections: seq<Section>, sha: Sha384)
    requires AllWellFormed(fw, sections)
    ensures var two, one := Stream(fw, sections, TwoPass), Stream(fw, sections, SinglePass);
            if exists s :: s in sections && OrderSensitive(s)
            then sha(two) == sha(one) ==> Collision(sha, two, one)
            else sha(two) == sha(one)
  {
    SameStream(fw, sections);
  }

  /** A parsed table costs at most 65536 pages, each one block added and sixteen extended. */
  lemma {:induction false} BlockBudget(fw: ByteString, sections: seq<Section>, order: PageAddOrder)
    requires AllWellFormed(fw, sections)
    ensures |Blocks(fw, sections, order)| <= 33 * TotalPages(sections)
  {
    if sections != [] {
      var last := sections[|sections| - 1];
      BlockBudget(fw, sections[..|sections| - 1], order);
      SectionBudget(fw, last, PageCount(last));
      SameBlocksPerSection(fw, last, PageCount(last));
      assert |multiset(SectionBlocks(fw, last, TwoPass))| == |multiset(SectionBlocks(fw, last, SinglePass))|;
    }
  }

  lemma {:induction false} SectionBudget(fw: ByteString, s: Section, n: nat)
    requires WellFormed(s, |fw|) && n <= PageCount(s)
    ensures |AddExtends(fw, s, n)| <= 33 * n
  {
    hide WellFormed, Block;
    if n > 0 {
      SectionBudget(fw, s, n - 1);
    }
  }

  /** Whatever `Parse` accepts can be measured in both orders, within the page budget. */
  lemma ParsedIsMeasurable(fw: ByteString, order: PageAddOrder)
    requires ParseTable(fw).Ok?
    ensures AllWellFormed(fw, ParseTable(fw).value)
    ensures |Blocks(fw, ParseTable(fw).value, order)| <= 33 * MAX_MEASURED_PAGES
  {
    ParseTableValid(fw);
    BlockBudget(fw, ParseTable(fw).value, order);
  }
}
