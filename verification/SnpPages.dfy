/** The pages a SEV-SNP launch builds: the kernel hash table and the VMSA. */
module SnpPages {
  import opened Common
  import opened Patching

  // ----- the SEV hash table -----

  const GUID_HASH_TABLE_HEADER: ByteString :=
    [0x06, 0xd6, 0x38, 0x94, 0x22, 0x4f, 0xc9, 0x4c, 0xb4, 0x79, 0xa7, 0x93, 0xd4, 0x11, 0xfd, 0x21]
  const GUID_KERNEL_ENTRY: ByteString :=
    [0x37, 0x94, 0xe7, 0x4d, 0xd2, 0xab, 0x7f, 0x42, 0xb8, 0x35, 0xd5, 0xb1, 0x72, 0xd2, 0x04, 0x5b]
  const GUID_INITRD_ENTRY: ByteString :=
    [0x31, 0xf7, 0xba, 0x44, 0x2f, 0x3a, 0xd7, 0x4b, 0x9a, 0xf1, 0x41, 0xe2, 0x91, 0x69, 0x78, 0x1d]
  const GUID_CMDLINE_ENTRY: ByteString :=
    [0xd8, 0x2d, 0xd0, 0x97, 0x20, 0xbd, 0x94, 0x4c, 0xaa, 0x78, 0xe7, 0x71, 0x4d, 0x36, 0xab, 0x2a]

  function HashEntry(guid: ByteString, hash: ByteString): ByteString {
    guid + Le(50, 2) + hash
  }

  /** Header, then the entries for the command line, the initrd and the kernel. */
  function HashTable(cmdlineHash: ByteString, initrdHash: ByteString, kernelHash: ByteString): (b: ByteString)
    requires |cmdlineHash| == 32 && |initrdHash| == 32 && |kernelHash| == 32
    ensures |b| == 168
  {
    GUID_HASH_TABLE_HEADER + Le(168, 2) + HashEntry(GUID_CMDLINE_ENTRY, cmdlineHash)
    + HashEntry(GUID_INITRD_ENTRY, initrdHash) + HashEntry(GUID_KERNEL_ENTRY, kernelHash)
  }

  /** The table alone on a zeroed page. */
  function TablePage(offset: nat, table: ByteString): (page: ByteString)
    requires offset + |table| <= 4096
    ensures |page| == 4096
  {
    Splice(Zeros(4096), offset, table)
  }

  lemma HashTableFields(cmdlineHash: ByteString, initrdHash: ByteString, kernelHash: ByteString)
    requires |cmdlineHash| == 32 && |initrdHash| == 32 && |kernelHash| == 32
    ensures var t := HashTable(cmdlineHash, initrdHash, kernelHash);
            t[0] == 6 && t[36..68] == cmdlineHash && t[86..118] == initrdHash && t[136..168] == kernelHash
  {
    hide Le;
  }

  /** The table page determines where the table is and the three digests in it. */
  lemma TablePageInjective(
    o: nat, c: ByteString, i: ByteString, k: ByteString, o': nat, c': ByteString, i': ByteString, k': ByteString)
    requires |c| == 32 && |i| == 32 && |k| == 32 && |c'| == 32 && |i'| == 32 && |k'| == 32
    requires o + 176 <= 4096 && o' + 176 <= 4096
    requires TablePage(o, HashTable(c, i, k)) == TablePage(o', HashTable(c', i', k'))
    ensures o == o' && c == c' && i == i' && k == k'
  {
    HashTableFields(c, i, k);
    HashTableFields(c', i', k');
    hide HashTable;
    var t, t' := HashTable(c, i, k), HashTable(c', i', k');
    FirstNonZero(o, t);
    FirstNonZero(o', t');
    hide TablePage;
    assert o == o';
    TableOnPage(o, t);
    TableOnPage(o, t');
  }

  lemma FirstNonZero(o: nat, t: ByteString)
    requires o + |t| <= 4096 && t != [] && t[0] != 0
    ensures TablePage(o, t)[o] != 0 && forall x :: 0 <= x < o ==> TablePage(o, t)[x] == 0
  {
    assert TablePage(o, t)[o] == t[0];
  }

  lemma TableOnPage(o: nat, t: ByteString)
    requires o + |t| <= 4096
    ensures TablePage(o, t)[o..o + |t|] == t
  {
  }

  // ----- the VMSA -----

  function Segment(selector: nat, attrib: nat, limit: nat, base: nat): (b: ByteString)
    ensures |b| == 16
  {
    Le(selector, 2) + Le(attrib, 2) + Le(limit, 4) + Le(base, 8)
  }

  /** The reset address splits into the code segment's base and a 16-bit instruction pointer. */
  function CodeBase(eip: Word32): Word32 {
    eip - eip % 0x1_0000
  }

  function Ip(eip: Word32): Word32 {
    eip % 0x1_0000
  }

  function CodeSegment(eip: Word32): (b: ByteString)
    ensures |b| == 16
  {
    Segment(0xf000, 0x009b, 0xffff, CodeBase(eip))
  }

  predicate Within(ws: seq<Write>, from: nat, to: nat) {
    forall i :: 0 <= i < |ws| ==> from <= ws[i].at && ws[i].at + |ws[i].bytes| <= to
  }

  function SegmentWrites(eip: Word32): (ws: seq<Write>)
    ensures Within(ws, 0, 0xa0)
  {
    [ Write(0x000, Segment(0, 0x0093, 0xffff, 0)),
      Write(0x010, CodeSegment(eip)),
      Write(0x020, Segment(0, 0x0093, 0xffff, 0)),
      Write(0x030, Segment(0, 0x0093, 0xffff, 0)),
      Write(0x040, Segment(0, 0x0093, 0xffff, 0)),
      Write(0x050, Segment(0, 0x0093, 0xffff, 0)),
      Write(0x060, Segment(0, 0x0000, 0xffff, 0)),
      Write(0x070, Segment(0, 0x0082, 0xffff, 0)),
      Write(0x080, Segment(0, 0x0000, 0xffff, 0)),
      Write(0x090, Segment(0, 0x008b, 0xffff, 0)) ]
  }

  function RegisterWrites(eip: Word32): (ws: seq<Write>)
    ensures Within(ws, 0x0d0, 0x270)
  {
    [ Write(0x0d0, Le(0x1000, 8)),
      Write(0x148, Le(0x40, 8)),
      Write(0x158, Le(0x10, 8)),
      Write(0x160, Le(0x400, 8)),
      Write(0x168, Le(0xffff_0ff0, 8)),
      Write(0x170, Le(0x2, 8)),
      Write(0x178, Le(Ip(eip), 8)),
      Write(0x268, Le(0x0007_0406_0007_0406, 8)) ]
  }

  function StateWrites(vcpuSig: Word32, features: Word64): (ws: seq<Write>)
    ensures Within(ws, 0x310, 0x412)
  {
    [ Write(0x310, Le(vcpuSig, 8)),
      Write(0x3b0, Le(features, 8)),
      Write(0x3e8, Le(0x1, 8)),
      Write(0x408, Le(0x1f80, 4)),
      Write(0x410, Le(0x037f, 2)) ]
  }

  lemma WithinFits(ws: seq<Write>, from: nat, to: nat)
    requires Within(ws, from, to) && to <= 4096
    ensures Fits(ws, 4096)
  {
  }

  function VmsaWrites(eip: Word32, vcpuSig: Word32, features: Word64): (ws: seq<Write>)
    ensures Fits(ws, 4096)
  {
    WithinFits(SegmentWrites(eip), 0, 0xa0);
    WithinFits(RegisterWrites(eip), 0x0d0, 0x270);
    WithinFits(StateWrites(vcpuSig, features), 0x310, 0x412);
    SegmentWrites(eip) + RegisterWrites(eip) + StateWrites(vcpuSig, features)
  }

  function VmsaPage(eip: Word32, vcpuSig: Word32, features: Word64): (page: ByteString)
    ensures |page| == 4096
  {
    Apply(Zeros(4096), VmsaWrites(eip, vcpuSig, features))
  }

  /** `page` carries `bytes` at `at`. */
  predicate Holds(page: ByteString, at: nat, bytes: ByteString) {
    at + |bytes| <= |page| && page[at..at + |bytes|] == bytes
  }

  /** What the VMSA says about the processor that starts from it. */
  predicate VmsaHolds(page: ByteString, eip: Word32, vcpuSig: Word32, features: Word64) {
    && Holds(page, 0x010, CodeSegment(eip))
    && Holds(page, 0x178, Le(Ip(eip), 8))
    && Holds(page, 0x310, Le(vcpuSig, 8))
    && Holds(page, 0x3b0, Le(features, 8))
  }

  lemma AscendingAppend(a: seq<Write>, b: seq<Write>, from: nat, to: nat, from': nat, to': nat)
    requires Ascending(a) && Ascending(b) && Within(a, from, to) && Within(b, from', to') && to <= from'
    ensures Ascending(a + b)
  {
    var ws := a + b;
    forall i | 0 <= i < |ws| - 1
      ensures ws[i].at + |ws[i].bytes| <= ws[i + 1].at
    {
      if i < |a| {
        assert ws[i] == a[i] && a[i] in a;
      } else {
        assert ws[i] == b[i - |a|];
      }
      if i + 1 < |a| {
        assert ws[i + 1] == a[i + 1];
      } else {
        assert ws[i + 1] == b[i + 1 - |a|] && b[i + 1 - |a|] in b;
      }
    }
  }

  lemma SegmentsAscend(eip: Word32)
    ensures Ascending(SegmentWrites(eip))
  {
    hide Le, Segment, CodeSegment, Ip;
  }

  lemma RegistersAscend(eip: Word32)
    ensures Ascending(RegisterWrites(eip))
  {
    hide Le, Ip;
  }

  lemma StateAscends(vcpuSig: Word32, features: Word64)
    ensures Ascending(StateWrites(vcpuSig, features))
  {
    hide Le;
  }

  lemma WithinAppend(a: seq<Write>, b: seq<Write>, from: nat, to: nat, from': nat, to': nat)
    requires Within(a, from, to) && Within(b, from', to') && from <= from' && to <= to'
    ensures Within(a + b, from, to')
  {
  }

  lemma VmsaAscending(eip: Word32, vcpuSig: Word32, features: Word64)
    ensures PairwiseDisjoint(VmsaWrites(eip, vcpuSig, features))
  {
    hide SegmentWrites, RegisterWrites, StateWrites, Within, Ascending, PairwiseDisjoint;
    var a, b, c := SegmentWrites(eip), RegisterWrites(eip), StateWrites(vcpuSig, features);
    SegmentsAscend(eip);
    RegistersAscend(eip);
    StateAscends(vcpuSig, features);
    AscendingAppend(a, b, 0, 0xa0, 0x0d0, 0x270);
    WithinAppend(a, b, 0, 0xa0, 0x0d0, 0x270);
    AscendingAppend(a + b, c, 0, 0x270, 0x310, 0x412);
    AscendingDisjoint(VmsaWrites(eip, vcpuSig, features));
  }

  /** Every field written is in the finished page. */
  lemma VmsaStands(eip: Word32, vcpuSig: Word32, features: Word64, w: Write)
    requires w in SegmentWrites(eip) || w in RegisterWrites(eip) || w in StateWrites(vcpuSig, features)
    ensures Holds(VmsaPage(eip, vcpuSig, features), w.at, w.bytes)
  {
    hide SegmentWrites, RegisterWrites, StateWrites, Apply;
    VmsaAscending(eip, vcpuSig, features);
    var ws := VmsaWrites(eip, vcpuSig, features);
    assert w in ws;
    FieldStands(Zeros(4096), ws, w);
  }

  lemma VmsaFields(eip: Word32, vcpuSig: Word32, features: Word64)
    ensures VmsaHolds(VmsaPage(eip, vcpuSig, features), eip, vcpuSig, features)
  {
    hide VmsaPage, CodeSegment, Segment, Ip, Le, Holds;
    var a, b, c := SegmentWrites(eip), RegisterWrites(eip), StateWrites(vcpuSig, features);
    assert a[1] == Write(0x010, CodeSegment(eip)) && b[6] == Write(0x178, Le(Ip(eip), 8));
    assert c[0] == Write(0x310, Le(vcpuSig, 8)) && c[1] == Write(0x3b0, Le(features, 8));
    hide SegmentWrites, RegisterWrites, StateWrites;
    VmsaStands(eip, vcpuSig, features, a[1]);
    VmsaStands(eip, vcpuSig, features, b[6]);
    VmsaStands(eip, vcpuSig, features, c[0]);
    VmsaStands(eip, vcpuSig, features, c[1]);
  }

  /** The VMSA determines the reset address, the processor signature and the features. */
  lemma VmsaInjective(e: Word32, s: Word32, f: Word64, e': Word32, s': Word32, f': Word64)
    requires VmsaPage(e, s, f) == VmsaPage(e', s', f')
    ensures e == e' && s == s' && f == f'
  {
    hide VmsaPage, CodeSegment, Ip, Le;
    VmsaFields(e, s, f);
    VmsaFields(e', s', f');
    ResetAddress(e, e');
    SameWord(s, s');
    SameWord(f, f');
  }

  lemma SameWord(v: Word64, w: Word64)
    requires Le(v, 8) == Le(w, 8)
    ensures v == w
  {
    WordSizes();
    LeInjective(v, w, 8);
  }

  lemma ResetAddress(e: Word32, e': Word32)
    requires CodeSegment(e) == CodeSegment(e') && Le(Ip(e), 8) == Le(Ip(e'), 8)
    ensures e == e'
  {
    hide Le;
    SameWord(Ip(e), Ip(e'));
    assert CodeSegment(e)[8..16] == Le(CodeBase(e), 8) && CodeSegment(e')[8..16] == Le(CodeBase(e'), 8);
    hide CodeSegment;
    SameWord(CodeBase(e), CodeBase(e'));
  }
}
