/** The SEV-SNP launch pages, processor signatures and limits, read field by field. */
module SnpReference {
  import opened Common
  import opened Text
  import opened Patching
  import opened Guids
  import opened SevSnp
  import opened SnpInput
  import opened SnpPages
  import opened SnpMeasurement
  import Utf8

  // ----- the hash table -----

  /** The identifiers of the table and its entries. */
  lemma TableGuids()
    ensures EncodeGuid(Guid("9438d606", "4f22", "4cc9", "b479", "a793d411fd21")) == Ok(GUID_HASH_TABLE_HEADER)
    ensures EncodeGuid(Guid("97d02dd8", "bd20", "4c94", "aa78", "e7714d36ab2a")) == Ok(GUID_CMDLINE_ENTRY)
    ensures EncodeGuid(Guid("44baf731", "3a2f", "4bd7", "9af1", "41e29169781d")) == Ok(GUID_INITRD_ENTRY)
    ensures EncodeGuid(Guid("4de79437", "abd2", "427f", "b835", "d5b172d2045b")) == Ok(GUID_KERNEL_ENTRY)
  {
    HeaderGuid();
    CmdlineGuid();
    InitrdGuid();
    KernelGuid();
  }

  lemma HeaderGuid()
    ensures EncodeGuid(Guid("9438d606", "4f22", "4cc9", "b479", "a793d411fd21")) == Ok(GUID_HASH_TABLE_HEADER)
  {
    hide EncodeGuid, Guid;
    SpelledGuid("9438d606", "4f22", "4cc9", "b479", "a793d411fd21", GUID_HASH_TABLE_HEADER);
  }

  lemma CmdlineGuid()
    ensures EncodeGuid(Guid("97d02dd8", "bd20", "4c94", "aa78", "e7714d36ab2a")) == Ok(GUID_CMDLINE_ENTRY)
  {
    hide EncodeGuid, Guid;
    SpelledGuid("97d02dd8", "bd20", "4c94", "aa78", "e7714d36ab2a", GUID_CMDLINE_ENTRY);
  }

  lemma InitrdGuid()
    ensures EncodeGuid(Guid("44baf731", "3a2f", "4bd7", "9af1", "41e29169781d")) == Ok(GUID_INITRD_ENTRY)
  {
    hide EncodeGuid, Guid;
    SpelledGuid("44baf731", "3a2f", "4bd7", "9af1", "41e29169781d", GUID_INITRD_ENTRY);
  }

  lemma KernelGuid()
    ensures EncodeGuid(Guid("4de79437", "abd2", "427f", "b835", "d5b172d2045b")) == Ok(GUID_KERNEL_ENTRY)
  {
    hide EncodeGuid, Guid;
    SpelledGuid("4de79437", "abd2", "427f", "b835", "d5b172d2045b", GUID_KERNEL_ENTRY);
  }

  /** One entry at `at`: its identifier, its length, 50, and the digest. */
  predicate EntryAt(t: ByteString, at: nat, guid: ByteString, hash: ByteString) {
    && at + 50 <= |t| && t[at..at + 16] == guid && FromLe(t[at + 16..at + 18]) == 50 && t[at + 18..at + 50] == hash
  }

  /** The table: its identifier and length, 168, then the entries for the command line, the initrd and
      the kernel. */
  lemma TableLayout(cmdlineHash: ByteString, initrdHash: ByteString, kernelHash: ByteString)
    requires |cmdlineHash| == 32 && |initrdHash| == 32 && |kernelHash| == 32
    ensures var t := HashTable(cmdlineHash, initrdHash, kernelHash);
            && |t| == 168 && t[0..16] == GUID_HASH_TABLE_HEADER && FromLe(t[16..18]) == 168
            && EntryAt(t, 18, GUID_CMDLINE_ENTRY, cmdlineHash)
            && EntryAt(t, 68, GUID_INITRD_ENTRY, initrdHash)
            && EntryAt(t, 118, GUID_KERNEL_ENTRY, kernelHash)
  {
    hide Le, FromLe;
    WordSizes();
    LeRoundTrip(168, 2);
    LeRoundTrip(50, 2);
    var t := HashTable(cmdlineHash, initrdHash, kernelHash);
    assert t[16..18] == Le(168, 2) && t[34..36] == Le(50, 2) && t[84..86] == Le(50, 2) && t[134..136] == Le(50, 2);
  }

  /** On its page the table stands at the offset, and everything else is zero. */
  lemma TablePageLayout(offset: nat, t: ByteString)
    requires offset + |t| <= 4096
    ensures var page := TablePage(offset, t);
            && |page| == 4096 && page[offset..offset + |t|] == t
            && forall x :: 0 <= x < 4096 && !(offset <= x < offset + |t|) ==> page[x] == 0
  {
  }

  predicate HexEntryAt(t: ByteString, at: nat, guid: ByteString, hex: string) {
    DecodeHex(hex).Some? && EntryAt(t, at, guid, DecodeHex(hex).value)
  }

  lemma EntryOnPage(page: ByteString, o: nat, t: ByteString, at: nat, guid: ByteString, hash: ByteString)
    requires o + |t| <= |page| && page[o..o + |t|] == t && EntryAt(t, at, guid, hash)
    ensures EntryAt(page, o + at, guid, hash)
  {
    Part(page, o, t, at, at + 16);
    Part(page, o, t, at + 16, at + 18);
    Part(page, o, t, at + 18, at + 50);
  }

  lemma Part(page: ByteString, o: nat, t: ByteString, i: nat, j: nat)
    requires o + |t| <= |page| && page[o..o + |t|] == t && i <= j <= |t|
    ensures page[o + i..o + j] == t[i..j]
  {
    forall k | 0 <= k < j - i
      ensures page[o + i..o + j][k] == t[i..j][k]
    {
      assert page[o + i + k] == page[o..o + |t|][i + k];
    }
  }

  /** The page of the hash table: at the table's offset in its page, the digests of the trimmed command
      line with a zero byte behind it, of the initrd (an empty one if there is none) and of the kernel. */
  lemma HashesPageLayout(sha256: Sha256, input: Input)
    requires HashesPage(sha256, input).Ok?
    ensures var page, o := HashesPage(sha256, input).value, input.hashesTableGpa % 4096;
            && |page| == 4096 && o + 176 <= 4096 && input.hashesTableGpa != 0
            && EntryAt(page, o + 18, GUID_CMDLINE_ENTRY, sha256(Utf8.Encode(Trim(input.baseCmdline)) + [0x00]))
            && (input.initrdHash == "" ==> EntryAt(page, o + 68, GUID_INITRD_ENTRY, sha256([])))
            && (input.initrdHash != "" ==> HexEntryAt(page, o + 68, GUID_INITRD_ENTRY, input.initrdHash))
            && HexEntryAt(page, o + 118, GUID_KERNEL_ENTRY, input.kernelHash)
  {
    hide EntryAt, HashTable, TablePage, DecodeHex, Utf8.Encode, Trim;
    var page, o := HashesPage(sha256, input).value, input.hashesTableGpa % 4096;
    var c := sha256(CmdlineBytes(input.baseCmdline));
    var i, k := InitrdDigest(sha256, input.initrdHash).value, Digest32(input.kernelHash).value;
    var t := HashTable(c, i, k);
    TableLayout(c, i, k);
    assert page == TablePage(o, t);
    TablePageLayout(o, t);
    EntryOnPage(page, o, t, 18, GUID_CMDLINE_ENTRY, c);
    EntryOnPage(page, o, t, 68, GUID_INITRD_ENTRY, i);
    EntryOnPage(page, o, t, 118, GUID_KERNEL_ENTRY, k);
  }

  // ----- the VMSA: the state a processor starts in -----

  predicate Field(page: ByteString, at: nat, n: nat, v: nat) {
    at + n <= |page| && FromLe(page[at..at + n]) == v
  }

  predicate SegmentIs(page: ByteString, at: nat, selector: nat, attrib: nat, limit: nat, base: nat) {
    && Field(page, at, 2, selector) && Field(page, at + 2, 2, attrib)
    && Field(page, at + 4, 4, limit) && Field(page, at + 8, 8, base)
  }

  /** The segment registers, in the order of the state save area (appendix B of the AMD64 manual, volume 2). */
  predicate Segments(page: ByteString, codeBase: nat) {
    && SegmentIs(page, 0x00, 0, 0x93, 0xffff, 0)
    && SegmentIs(page, 0x10, 0xf000, 0x9b, 0xffff, codeBase)
    && SegmentIs(page, 0x20, 0, 0x93, 0xffff, 0)
    && SegmentIs(page, 0x30, 0, 0x93, 0xffff, 0)
    && SegmentIs(page, 0x40, 0, 0x93, 0xffff, 0)
    && SegmentIs(page, 0x50, 0, 0x93, 0xffff, 0)
    && SegmentIs(page, 0x60, 0, 0, 0xffff, 0)
    && SegmentIs(page, 0x70, 0, 0x82, 0xffff, 0)
    && SegmentIs(page, 0x80, 0, 0, 0xffff, 0)
    && SegmentIs(page, 0x90, 0, 0x8b, 0xffff, 0)
  }

  /** EFER, CR4, CR0, DR7, DR6, RFLAGS, RIP and the guest PAT. */
  predicate Registers(page: ByteString, ip: nat) {
    && Field(page, 0xd0, 8, 0x1000) && Field(page, 0x148, 8, 0x40) && Field(page, 0x158, 8, 0x10)
    && Field(page, 0x160, 8, 0x400) && Field(page, 0x168, 8, 0xffff_0ff0) && Field(page, 0x170, 8, 0x2)
    && Field(page, 0x178, 8, ip) && Field(page, 0x268, 8, 0x7_0406_0007_0406)
  }

  /** RDX, the SEV features, XCR0, MXCSR and the x87 control word. */
  predicate State(page: ByteString, vcpuSig: nat, features: nat) {
    && Field(page, 0x310, 8, vcpuSig) && Field(page, 0x3b0, 8, features) && Field(page, 0x3e8, 8, 0x1)
    && Field(page, 0x408, 4, 0x1f80) && Field(page, 0x410, 2, 0x37f)
  }

  lemma Reads(page: ByteString, at: nat, v: nat, n: nat)
    requires Holds(page, at, Le(v, n)) && v < Pow256(n)
    ensures Field(page, at, n, v)
  {
    LeRoundTrip(v, n);
  }

  lemma ReadsSegment(page: ByteString, at: nat, selector: nat, attrib: nat, limit: nat, base: nat)
    requires Holds(page, at, Segment(selector, attrib, limit, base))
    requires selector < 0x1_0000 && attrib < 0x1_0000 && limit < 0x1_0000_0000 && base < 0x1_0000_0000_0000_0000
    ensures SegmentIs(page, at, selector, attrib, limit, base)
  {
    hide Le, FromLe, Field;
    WordSizes();
    var b := Segment(selector, attrib, limit, base);
    assert b[0..2] == Le(selector, 2) && b[2..4] == Le(attrib, 2) && b[4..8] == Le(limit, 4) && b[8..16] == Le(base, 8);
    HoldsPart(page, at, b, 0, 2);
    HoldsPart(page, at, b, 2, 4);
    HoldsPart(page, at, b, 4, 8);
    HoldsPart(page, at, b, 8, 16);
    hide Segment, Holds;
    Reads(page, at, selector, 2);
    Reads(page, at + 2, attrib, 2);
    Reads(page, at + 4, limit, 4);
    Reads(page, at + 8, base, 8);
  }

  lemma HoldsPart(page: ByteString, at: nat, b: ByteString, i: nat, j: nat)
    requires Holds(page, at, b) && i <= j <= |b|
    ensures Holds(page, at + i, b[i..j])
  {
    forall k | 0 <= k < j - i
      ensures page[at + i..at + j][k] == b[i..j][k]
    {
      assert page[at + i + k] == page[at..at + |b|][i + k];
    }
  }

  lemma SegmentsAre(eip: Word32, vcpuSig: Word32, features: Word64)
    ensures Segments(VmsaPage(eip, vcpuSig, features), eip - eip % 0x1_0000)
  {
    hide VmsaPage, Segment, SegmentIs, Holds;
    var page, ws := VmsaPage(eip, vcpuSig, features), SegmentWrites(eip);
    assert |ws| == 10;
    forall i | 0 <= i < 10
      ensures Holds(page, ws[i].at, ws[i].bytes)
    {
      VmsaStands(eip, vcpuSig, features, ws[i]);
    }
    ReadsSegment(page, 0x00, 0, 0x93, 0xffff, 0) by { assert Holds(page, ws[0].at, ws[0].bytes); }
    ReadsSegment(page, 0x10, 0xf000, 0x9b, 0xffff, eip - eip % 0x1_0000) by { assert Holds(page, ws[1].at, ws[1].bytes); }
    ReadsSegment(page, 0x20, 0, 0x93, 0xffff, 0) by { assert Holds(page, ws[2].at, ws[2].bytes); }
    ReadsSegment(page, 0x30, 0, 0x93, 0xffff, 0) by { assert Holds(page, ws[3].at, ws[3].bytes); }
    ReadsSegment(page, 0x40, 0, 0x93, 0xffff, 0) by { assert Holds(page, ws[4].at, ws[4].bytes); }
    ReadsSegment(page, 0x50, 0, 0x93, 0xffff, 0) by { assert Holds(page, ws[5].at, ws[5].bytes); }
    ReadsSegment(page, 0x60, 0, 0, 0xffff, 0) by { assert Holds(page, ws[6].at, ws[6].bytes); }
    ReadsSegment(page, 0x70, 0, 0x82, 0xffff, 0) by { assert Holds(page, ws[7].at, ws[7].bytes); }
    ReadsSegment(page, 0x80, 0, 0, 0xffff, 0) by { assert Holds(page, ws[8].at, ws[8].bytes); }
    ReadsSegment(page, 0x90, 0, 0x8b, 0xffff, 0) by { assert Holds(page, ws[9].at, ws[9].bytes); }
  }

  lemma WordField(eip: Word32, vcpuSig: Word32, features: Word64, at: nat, v: nat, n: nat)
    requires Write(at, Le(v, n)) in RegisterWrites(eip) || Write(at, Le(v, n)) in StateWrites(vcpuSig, features)
    requires v < Pow256(n)
    ensures Field(VmsaPage(eip, vcpuSig, features), at, n, v)
  {
    hide VmsaPage, RegisterWrites, StateWrites, Le, Field;
    VmsaStands(eip, vcpuSig, features, Write(at, Le(v, n)));
    Reads(VmsaPage(eip, vcpuSig, features), at, v, n);
  }

  lemma RegistersAre(eip: Word32, vcpuSig: Word32, features: Word64)
    ensures Registers(VmsaPage(eip, vcpuSig, features), eip % 0x1_0000)
  {
    hide VmsaPage, Le, Field, Pow256;
    WordSizes();
    var ws := RegisterWrites(eip);
    assert |ws| == 8 && ws[0] == Write(0xd0, Le(0x1000, 8)) && ws[1] == Write(0x148, Le(0x40, 8));
    assert ws[2] == Write(0x158, Le(0x10, 8)) && ws[3] == Write(0x160, Le(0x400, 8));
    assert ws[4] == Write(0x168, Le(0xffff_0ff0, 8)) && ws[5] == Write(0x170, Le(0x2, 8));
    assert ws[6] == Write(0x178, Le(eip % 0x1_0000, 8)) && ws[7] == Write(0x268, Le(0x7_0406_0007_0406, 8));
    hide RegisterWrites, StateWrites;
    WordField(eip, vcpuSig, features, 0xd0, 0x1000, 8);
    WordField(eip, vcpuSig, features, 0x148, 0x40, 8);
    WordField(eip, vcpuSig, features, 0x158, 0x10, 8);
    WordField(eip, vcpuSig, features, 0x160, 0x400, 8);
    WordField(eip, vcpuSig, features, 0x168, 0xffff_0ff0, 8);
    WordField(eip, vcpuSig, features, 0x170, 0x2, 8);
    WordField(eip, vcpuSig, features, 0x178, eip % 0x1_0000, 8);
    WordField(eip, vcpuSig, features, 0x268, 0x7_0406_0007_0406, 8);
  }

  lemma StateIs(eip: Word32, vcpuSig: Word32, features: Word64)
    ensures State(VmsaPage(eip, vcpuSig, features), vcpuSig, features)
  {
    hide VmsaPage, Le, Field, Pow256;
    WordSizes();
    var ws := StateWrites(vcpuSig, features);
    assert |ws| == 5 && ws[0] == Write(0x310, Le(vcpuSig, 8)) && ws[1] == Write(0x3b0, Le(features, 8));
    assert ws[2] == Write(0x3e8, Le(0x1, 8)) && ws[3] == Write(0x408, Le(0x1f80, 4))
        && ws[4] == Write(0x410, Le(0x37f, 2));
    hide RegisterWrites, StateWrites;
    WordField(eip, vcpuSig, features, 0x310, vcpuSig, 8);
    WordField(eip, vcpuSig, features, 0x3b0, features, 8);
    WordField(eip, vcpuSig, features, 0x3e8, 0x1, 8);
    WordField(eip, vcpuSig, features, 0x408, 0x1f80, 4);
    WordField(eip, vcpuSig, features, 0x410, 0x37f, 2);
  }

  /** Where the page is not written. */
  predicate Unwritten(x: nat) {
    || 0xa0 <= x < 0xd0 || 0xd8 <= x < 0x148 || 0x150 <= x < 0x158 || 0x180 <= x < 0x268
    || 0x270 <= x < 0x310 || 0x318 <= x < 0x3b0 || 0x3b8 <= x < 0x3e8 || 0x3f0 <= x < 0x408
    || 0x40c <= x < 0x410 || 0x412 <= x < 4096
  }

  lemma SegmentsClear(eip: Word32, x: nat)
    requires Unwritten(x)
    ensures Clear(SegmentWrites(eip), x, x + 1)
  {
    hide Segment, CodeSegment;
  }

  lemma RegistersClear(eip: Word32, x: nat)
    requires Unwritten(x)
    ensures Clear(RegisterWrites(eip), x, x + 1)
  {
    hide Le, Ip;
  }

  lemma StateClear(vcpuSig: Word32, features: Word64, x: nat)
    requires Unwritten(x)
    ensures Clear(StateWrites(vcpuSig, features), x, x + 1)
  {
    hide Le;
  }

  lemma ZeroElsewhere(eip: Word32, vcpuSig: Word32, features: Word64, x: nat)
    requires Unwritten(x) && x < 4096
    ensures VmsaPage(eip, vcpuSig, features)[x] == 0
  {
    hide SegmentWrites, RegisterWrites, StateWrites, Apply, Unwritten;
    SegmentsClear(eip, x);
    RegistersClear(eip, x);
    StateClear(vcpuSig, features, x);
    var ws := VmsaWrites(eip, vcpuSig, features);
    assert Clear(ws, x, x + 1);
    hide VmsaWrites, Clear;
    Untouched(Zeros(4096), ws, x, x + 1);
    assert Apply(Zeros(4096), ws)[x] == Apply(Zeros(4096), ws)[x..x + 1][0];
  }

  /** A processor in its reset state at code base plus instruction pointer, which make up the reset
      address, and nothing else on the page. */
  predicate ResetState(page: ByteString, eip: Word32, vcpuSig: Word32, features: Word64) {
    && |page| == 4096
    && Segments(page, eip - eip % 0x1_0000) && Registers(page, eip % 0x1_0000) && State(page, vcpuSig, features)
    && forall x :: 0 <= x < 4096 && Unwritten(x) ==> page[x] == 0
  }

  /** The VMSA page is exactly that state. */
  lemma VmsaIsResetState(eip: Word32, vcpuSig: Word32, features: Word64)
    ensures ResetState(VmsaPage(eip, vcpuSig, features), eip, vcpuSig, features)
  {
    hide VmsaPage, Segments, Registers, State;
    SegmentsAre(eip, vcpuSig, features);
    RegistersAre(eip, vcpuSig, features);
    StateIs(eip, vcpuSig, features);
    forall x | 0 <= x < 4096 && Unwritten(x)
      ensures VmsaPage(eip, vcpuSig, features)[x] == 0
    {
      ZeroElsewhere(eip, vcpuSig, features, x);
    }
  }

  // ----- processors and limits -----

  const NAPLES := ["epyc", "epyc-v1", "epyc-v2", "epyc-ibpb", "epyc-v3", "epyc-v4"]
  const ROME := ["epyc-rome", "epyc-rome-v1", "epyc-rome-v2", "epyc-rome-v3"]
  const MILAN := ["epyc-milan", "epyc-milan-v1", "epyc-milan-v2"]
  const GENOA := ["epyc-genoa", "epyc-genoa-v1"]

  /** The signatures CPUID reports for the processor types, named in letters of either case and with
      blanks around them, and no others. */
  lemma Signatures(vcpuType: string)
    ensures var name := Lower(Trim(vcpuType));
            VcpuSig(vcpuType) == if name in NAPLES then Ok(0x80_0f12)
                                 else if name in ROME then Ok(0x83_0f10)
                                 else if name in MILAN then Ok(0xa0_0f11)
                                 else if name in GENOA then Ok(0xa1_0f10)
                                 else Err
  {
    hide Lower, Trim;
  }

  /** A valid input: one to 512 processors with the one feature bit, at most 64 sections of known types
      and at most 65536 pages, a hash table and a reset address. */
  lemma ValidLimits(input: Input)
    requires Valid(input)
    ensures 1 <= input.vcpus <= 512 && input.guestFeatures == 1
    ensures 1 <= |input.sections| <= 64 && MetadataPages(input.sections) <= 65536
    ensures forall s :: s in input.sections ==> s.size > 0 && s.sectionType in [0x01, 0x02, 0x03, 0x04, 0x10]
    ensures (exists s :: s in input.sections && s.sectionType == 0x10) && input.hashesTableGpa > 0 && input.resetEip > 0
  {
    hide RootfsHash, DecodeRequiredHex, DecodeOptionalHex, KnownVcpuType, MetadataPages;
  }

  /** Nothing else about these is asked: any other number of processors, hash table address, reset
      address or list of sections within the limits is valid too. */
  lemma ValidWithin(input: Input, vcpus: Word32, gpa: Word64, eip: Word32, sections: seq<OvmfSection>)
    requires Valid(input) && 1 <= vcpus <= 512 && gpa > 0 && eip > 0 && 1 <= |sections| <= 64
    requires MetadataPages(sections) <= 65536 && exists s :: s in sections && s.sectionType == 0x10
    requires forall s :: s in sections ==> s.size > 0 && s.sectionType in [0x01, 0x02, 0x03, 0x04, 0x10]
    ensures Valid(input.(vcpus := vcpus, hashesTableGpa := gpa, resetEip := eip, sections := sections))
  {
    hide RootfsHash, DecodeRequiredHex, DecodeOptionalHex, KnownVcpuType, MetadataPages;
  }

  /** A page for every started 4096 bytes. */
  lemma PagesStarted(size: nat)
    ensures 4096 * (PageCount(size) - 1) < size <= 4096 * PageCount(size) || (size == 0 && PageCount(size) == 0)
  {
  }
}
