/** The TD hand-off block (HOB) list OVMF receives, built from the acceptor's ranges. */
module TdHob {
  import opened Common
  import opened Sequences
  import opened MemoryAcceptance

  const TWO_GIB := 0x8000_0000
  const FOUR_GIB := 0x1_0000_0000

  /** q35 keeps RAM in one block below this size and splits it at 2 GiB from it on. */
  const HIGH_MEMORY_SPLIT := 0xB000_0000

  const HOB_SYSTEM_MEMORY: Byte := 0x00
  const HOB_UNACCEPTED: Byte := 0x07

  /** A resource descriptor HOB. */
  datatype Hob = Hob(resource: Byte, start: nat, length: nat)

  function RangeHob(r: Range): Hob
    requires r.start <= r.end
  {
    Hob(if r.accepted then HOB_SYSTEM_MEMORY else HOB_UNACCEPTED, r.start, r.end - r.start)
  }

  function RangeHobs(rs: seq<Range>): (r: Result<seq<Hob>>)
    ensures r.Ok? ==> |r.value| == |rs|
  {
    if rs == [] then Ok([])
    else
      var init :- RangeHobs(rs[..|rs| - 1]);
      if rs[|rs| - 1].end < rs[|rs| - 1].start then Err
      else Ok(init + [RangeHob(rs[|rs| - 1])])
  }

  /** The last range is always reported unaccepted, and split around the PCI hole. */
  function LastHobs(last: Range, memorySize: nat): seq<Hob>
    requires last.start <= last.end
  {
    if memorySize >= HIGH_MEMORY_SPLIT then LowHob(last) + HighHob(last)
    else [Hob(HOB_UNACCEPTED, last.start, last.end - last.start)]
  }

  function LowHob(last: Range): seq<Hob> {
    if last.start < TWO_GIB then [Hob(HOB_UNACCEPTED, last.start, TWO_GIB - last.start)] else []
  }

  function HighHob(last: Range): seq<Hob> {
    if last.end > TWO_GIB then [Hob(HOB_UNACCEPTED, FOUR_GIB, last.end - TWO_GIB)] else []
  }

  function HobList(rs: seq<Range>, memorySize: nat): Result<seq<Hob>> {
    if rs == [] then Err
    else
      var last := rs[|rs| - 1];
      var hobs :- RangeHobs(rs[..|rs| - 1]);
      if last.end < last.start then Err else Ok(hobs + LastHobs(last, memorySize))
  }

  /** The hand-off information HOB up to its last field, EfiEndOfHobList. */
  function HandoffFields(): (b: ByteString)
    ensures |b| == 48
  {
    [0x01, 0x00] + Le(56, 2) + Zeros(4) + Le(9, 4) + Zeros(4) + Zeros(32)
  }

  function HobBytes(h: Hob): (b: ByteString)
    ensures |b| == 48
  {
    HobFixed(h.resource) + Le(h.start, 8) + Le(h.length, 8)
  }

  function HobFixed(resource: Byte): (b: ByteString)
    ensures |b| == 32
  {
    [0x03, 0x00] + Le(48, 2) + Zeros(4) + Zeros(16) + [resource] + Zeros(3) + Le(7, 4)
  }

  /** The bytes that are hashed into the first RTMR0 event. */
  function TdHobBytes(rs: seq<Range>, memorySize: nat, base: Word64): Result<ByteString> {
    var hobs :- HobList(rs, memorySize);
    Assemble(hobs, base)
  }

  function Assemble(hobs: seq<Hob>, base: Word64): Result<ByteString> {
    var endOfList := base + 56 + 48 * |hobs| + 8;
    if endOfList >= U64 then Err
    else Ok(HandoffFields() + Le(endOfList, 8) + FlatMap(hobs, HobBytes))
  }

  /** The HOBs of all ranges but the last, appended to the buffer one by one. */
  method EmitRangeHobs(tdHob: ByteString, ranges: seq<Range>) returns (r: Result<ByteString>)
    ensures RangeHobs(ranges).Err? ==> r.Err?
    ensures RangeHobs(ranges).Ok? ==> r == Ok(tdHob + FlatMap(RangeHobs(ranges).value, HobBytes))
  {
    hide HobBytes;
    var out := tdHob;
    ghost var hobs: seq<Hob> := [];
    for i := 0 to |ranges|
      invariant RangeHobs(ranges[..i]) == Ok(hobs)
      invariant out == tdHob + FlatMap(hobs, HobBytes)
    {
      var range := ranges[i];
      assert ranges[..i + 1][..i] == ranges[..i];
      if range.end < range.start {
        RangeHobsErr(ranges, i + 1);
        return Err;
      }
      var resource := if range.accepted then HOB_SYSTEM_MEMORY else HOB_UNACCEPTED;
      var hob := Hob(resource, range.start, range.end - range.start);
      AppendHob(tdHob, hobs, hob);
      hobs := hobs + [hob];
      out := out + HobBytes(hob);
    }
    assert ranges[..|ranges|] == ranges;
    return Ok(out);
  }

  lemma AppendHob(prefix: ByteString, hobs: seq<Hob>, h: Hob)
    ensures prefix + FlatMap(hobs + [h], HobBytes) == prefix + FlatMap(hobs, HobBytes) + HobBytes(h)
  {
    FlatMapAppend(hobs, h, HobBytes);
  }

  method EmitLastHobs(tdHob: ByteString, last: Range, memorySize: nat) returns (r: ByteString)
    requires last.start <= last.end
    ensures r == tdHob + FlatMap(LastHobs(last, memorySize), HobBytes)
  {
    hide HobBytes;
    var hobs: ByteString := [];
    if memorySize >= HIGH_MEMORY_SPLIT {
      SplitHobBytes(last);
      hide FlatMap;
      if last.start < TWO_GIB {
        hobs := HobBytes(Hob(HOB_UNACCEPTED, last.start, TWO_GIB - last.start));
      }
      if last.end > TWO_GIB {
        hobs := hobs + HobBytes(Hob(HOB_UNACCEPTED, FOUR_GIB, last.end - TWO_GIB));
      }
    } else {
      var hob := Hob(HOB_UNACCEPTED, last.start, last.end - last.start);
      FlatMapOne(hob, HobBytes);
      hobs := HobBytes(hob);
    }
    r := tdHob + hobs;
  }

  lemma SplitHobBytes(last: Range)
    ensures FlatMap(LowHob(last) + HighHob(last), HobBytes) ==
            (if last.start < TWO_GIB then HobBytes(Hob(HOB_UNACCEPTED, last.start, TWO_GIB - last.start)) else [])
            + (if last.end > TWO_GIB then HobBytes(Hob(HOB_UNACCEPTED, FOUR_GIB, last.end - TWO_GIB)) else [])
  {
    hide HobBytes;
    FlatMapSplit(LowHob(last), HighHob(last), HobBytes);
    if last.start < TWO_GIB {
      FlatMapOne(LowHob(last)[0], HobBytes);
    }
    if last.end > TWO_GIB {
      FlatMapOne(HighHob(last)[0], HobBytes);
    }
  }

  /** Grows the HOB buffer as the source does, then patches EfiEndOfHobList in place. */
  method EmitTdHob(ranges: seq<Range>, memorySize: nat, base: Word64) returns (r: Result<ByteString>)
    ensures r == TdHobBytes(ranges, memorySize, base)
  {
    hide HobBytes, HandoffFields, FlatMap, Zeros, Assemble, RangeHobs, LastHobs;
    if ranges == [] {
      return Err;
    }
    var last := ranges[|ranges| - 1];
    var header := HandoffFields() + Zeros(8);
    var tdHob :- EmitRangeHobs(header, ranges[..|ranges| - 1]);
    if last.end < last.start {
      return Err;
    }
    tdHob := EmitLastHobs(tdHob, last, memorySize);
    ghost var front, back := RangeHobs(ranges[..|ranges| - 1]).value, LastHobs(last, memorySize);
    FlatMapSplit(front, back, HobBytes);
    r := PatchEndOfList(tdHob, base, front + back);
  }

  method PatchEndOfList(tdHob: ByteString, base: Word64, ghost hobs: seq<Hob>) returns (r: Result<ByteString>)
    requires tdHob == HandoffFields() + Zeros(8) + FlatMap(hobs, HobBytes)
    ensures r == Assemble(hobs, base)
  {
    hide HobBytes, HandoffFields, FlatMap, Zeros, Le, Splice;
    FlatMapLength(hobs, HobBytes, 48);
    var endOfList := base + |tdHob| + 8;
    if endOfList >= U64 {
      return Err;
    }
    SpliceMiddle(HandoffFields(), FlatMap(hobs, HobBytes), Le(endOfList, 8));
    return Ok(Splice(tdHob, 48, Le(endOfList, 8)));
  }

  lemma SpliceMiddle(fields: ByteString, list: ByteString, v: ByteString)
    requires |fields| == 48 && |v| == 8
    ensures Splice(fields + Zeros(8) + list, 48, v) == fields + v + list
  {
  }

  lemma {:induction false} RangeHobsErr(rs: seq<Range>, i: nat)
    requires 0 < i <= |rs| && rs[i - 1].end < rs[i - 1].start
    ensures RangeHobs(rs).Err?
    decreases |rs|
  {
    if i < |rs| {
      assert rs[..|rs| - 1][i - 1] == rs[i - 1];
      RangeHobsErr(rs[..|rs| - 1], i);
    }
  }

  // ----- what a reader of the bytes finds -----

  /** The guest side of the encoding: the `i`-th HOB of a TD HOB list, if it is a resource descriptor
      (type 3, 48 bytes, no owner) with attributes 7. */
  function ReadHob(b: ByteString, i: nat): Option<Hob>
    requires 56 + 48 * (i + 1) <= |b|
  {
    ReadFields(b[56 + 48 * i..56 + 48 * i + 48])
  }

  function ReadFields(h: ByteString): Option<Hob>
    requires |h| == 48
  {
    if h[..24] == [0x03, 0x00, 0x30, 0x00] + Zeros(20) && h[25..28] == [0, 0, 0] && h[28..32] == [0x07, 0x00, 0x00, 0x00]
    then Some(Hob(h[24], FromLe(h[32..40]), FromLe(h[40..48])))
    else None
  }

  lemma HobHeader(resource: Byte)
    ensures var b := HobFixed(resource); b[..24] == [0x03, 0x00, 0x30, 0x00] + Zeros(20)
  {
    LeSmall(48);
    hide Le;
  }

  lemma HobKind(resource: Byte)
    ensures var b := HobFixed(resource);
            b[24] == resource && b[25..28] == [0, 0, 0] && b[28..32] == [0x07, 0x00, 0x00, 0x00]
  {
    LeSmall(7);
    hide Le;
  }

  lemma HobBody(h: Hob)
    ensures var b, fixed := HobBytes(h), HobFixed(h.resource);
            && b[..24] == fixed[..24] && b[24] == fixed[24] && b[25..28] == fixed[25..28] && b[28..32] == fixed[28..32]
            && b[32..40] == Le(h.start, 8) && b[40..48] == Le(h.length, 8)
  {
    hide Le, HobFixed;
  }

  lemma HobFields(h: Hob)
    requires h.start < U64 && h.length < U64
    ensures ReadFields(HobBytes(h)) == Some(h)
  {
    hide Le, FromLe, HobBytes, HobFixed;
    HobHeader(h.resource);
    HobKind(h.resource);
    HobBody(h);
    WordSizes();
    LeRoundTrip(h.start, 8);
    LeRoundTrip(h.length, 8);
  }

  /** The hand-off HOB: type 1, 56 bytes, version 9, everything else zero. */
  predicate HandoffIs(b: ByteString) {
    && |b| >= 56 && b[..16] == [0x01, 0x00, 0x38, 0x00, 0, 0, 0, 0, 0x09, 0x00, 0x00, 0x00, 0, 0, 0, 0]
    && b[16..48] == Zeros(32)
  }

  lemma HandoffReads(rest: ByteString)
    requires |rest| >= 8
    ensures HandoffIs(HandoffFields() + rest)
  {
    LeSmall(56);
    LeSmall(9);
    hide Le;
    var b := HandoffFields();
    assert b[..16] == [0x01, 0x00, 0x38, 0x00, 0, 0, 0, 0, 0x09, 0x00, 0x00, 0x00, 0, 0, 0, 0] && b[16..48] == Zeros(32);
    hide HandoffFields;
    assert (b + rest)[..16] == b[..16] && (b + rest)[16..48] == b[16..48];
  }

  lemma EncodedListReadsBack(hobs: seq<Hob>, endOfList: nat, b: ByteString, i: nat)
    requires b == HandoffFields() + Le(endOfList, 8) + FlatMap(hobs, HobBytes)
    requires i < |hobs| && hobs[i].start < U64 && hobs[i].length < U64 && endOfList < U64
    ensures |b| == 56 + 48 * |hobs| && ReadHob(b, i) == Some(hobs[i]) && FromLe(b[48..56]) == endOfList && HandoffIs(b)
  {
    hide HobBytes, HandoffFields, Le, FromLe, Pow256, FlatMap, HandoffIs, ReadFields;
    FlatMapLength(hobs, HobBytes, 48);
    FlatMapAt(hobs, HobBytes, 48, i);
    HobFields(hobs[i]);
    WordSizes();
    LeRoundTrip(endOfList, 8);
    SliceList(HandoffFields(), Le(endOfList, 8), FlatMap(hobs, HobBytes), 48 * i);
    Assoc(HandoffFields(), Le(endOfList, 8), FlatMap(hobs, HobBytes));
    HandoffReads(Le(endOfList, 8) + FlatMap(hobs, HobBytes));
  }

  /** The bytes are a hand-off HOB and exactly the resource HOBs, and EfiEndOfHobList points 8 bytes
      past the list. */
  lemma TdHobReadsBack(rs: seq<Range>, memorySize: nat, base: Word64, hobs: seq<Hob>, b: ByteString, i: nat)
    requires HobList(rs, memorySize) == Ok(hobs) && TdHobBytes(rs, memorySize, base) == Ok(b)
    requires i < |hobs| && hobs[i].start < U64 && hobs[i].length < U64
    ensures |b| == 56 + 48 * |hobs| && HandoffIs(b) && ReadHob(b, i) == Some(hobs[i])
    ensures FromLe(b[48..56]) == base + |b| + 8
  {
    hide HobBytes, HandoffFields, Le, FromLe, FlatMap, HobList, ReadHob, HandoffIs;
    assert Assemble(hobs, base) == Ok(b);
    EncodedListReadsBack(hobs, base + 56 + 48 * |hobs| + 8, b, i);
  }

  lemma SliceList(fields: ByteString, v: ByteString, list: ByteString, at: nat)
    requires |fields| == 48 && |v| == 8 && at + 48 <= |list|
    ensures (fields + v + list)[48..56] == v
    ensures (fields + v + list)[56 + at..56 + at + 48] == list[at..at + 48]
  {
  }

  // ----- conservation of memory -----

  function TotalLength(hobs: seq<Hob>): nat {
    if hobs == [] then 0 else TotalLength(hobs[..|hobs| - 1]) + hobs[|hobs| - 1].length
  }

  lemma {:induction false} TotalLengthSplit(a: seq<Hob>, b: seq<Hob>)
    ensures TotalLength(a + b) == TotalLength(a) + TotalLength(b)
  {
    if b == [] {
      assert a + b == a;
    } else {
      TotalLengthSplit(a, b[..|b| - 1]);
      assert (a + b)[..|a + b| - 1] == a + b[..|b| - 1];
    }
  }

  lemma TotalLengthOne(h: Hob)
    ensures TotalLength([h]) == h.length
  {
    assert [h][..0] == [];
  }

  lemma {:induction false} ChainHobs(rs: seq<Range>, to: nat)
    requires Chain(rs, 0, to)
    ensures RangeHobs(rs).Ok? && TotalLength(RangeHobs(rs).value) == to
  {
    if rs != [] {
      ChainHobs(rs[..|rs| - 1], rs[|rs| - 1].start);
      var init := RangeHobs(rs[..|rs| - 1]).value;
      assert (init + [RangeHob(rs[|rs| - 1])])[..|init|] == init;
    }
  }

  lemma LastHobsTotal(last: Range, memorySize: nat)
    requires last.start <= last.end == memorySize
    ensures TotalLength(LastHobs(last, memorySize)) == memorySize - last.start <==>
            memorySize < HIGH_MEMORY_SPLIT || last.start <= TWO_GIB
  {
    if memorySize < HIGH_MEMORY_SPLIT {
      TotalLengthOne(Hob(HOB_UNACCEPTED, last.start, last.end - last.start));
    } else {
      var high := Hob(HOB_UNACCEPTED, FOUR_GIB, last.end - TWO_GIB);
      TotalLengthOne(high);
      if last.start < TWO_GIB {
        var low := Hob(HOB_UNACCEPTED, last.start, TWO_GIB - last.start);
        TotalLengthOne(low);
        TotalLengthSplit([low], [high]);
      }
    }
  }

  lemma HobListTotal(rs: seq<Range>, memorySize: nat)
    requires rs != [] && Chain(rs, 0, memorySize)
    ensures HobList(rs, memorySize).Ok?
    ensures TotalLength(HobList(rs, memorySize).value) == memorySize <==>
            memorySize < HIGH_MEMORY_SPLIT || rs[|rs| - 1].start <= TWO_GIB
  {
    var init, last := rs[..|rs| - 1], rs[|rs| - 1];
    ChainHobs(init, last.start);
    LastHobsTotal(last, memorySize);
    TotalLengthSplit(RangeHobs(init).value, LastHobs(last, memorySize));
  }

  /** An accepted span does not push the last range above the 2 GiB split. */
  predicate KeepsLowMemory(p: Span, memorySize: nat) {
    p.end <= TWO_GIB || (p.start <= TWO_GIB && p.end == memorySize)
  }

  lemma {:induction false} AcceptedKept(size: nat, ps: seq<Span>, p: Span)
    requires p in ps && p.start < p.end
    ensures Accepted(p) in AcceptAll(Fresh(size), ps)
  {
    hide CutAll, Sort, Accepted;
    var init, q := ps[..|ps| - 1], ps[|ps| - 1];
    var rs := AcceptAll(Fresh(size), init);
    if p in init {
      AcceptedKept(size, init, p);
    }
    AcceptOneKeeps(rs, q, p, p in init);
  }

  lemma AcceptOneKeeps(rs: seq<Range>, q: Span, p: Span, before: bool)
    requires p.start < p.end
    requires if before then Accepted(p) in rs else p == q
    ensures Accepted(p) in AcceptOne(rs, q)
  {
    hide Sort, Cut, Cutter, FlatMap;
    if q.start < q.end {
      if before {
        CutAllKeeps(rs, q, Accepted(p));
      }
      var c := CutAll(rs, q) + [Accepted(q)];
      assert Accepted(p) in c;
      assert Accepted(p) in multiset(Sort(c, StartOf));
    }
  }

  lemma {:induction false} CutAllKeeps(rs: seq<Range>, q: Span, r: Range)
    requires r in rs && r.accepted
    ensures r in CutAll(rs, q)
  {
    if r in rs[..|rs| - 1] {
      CutAllKeeps(rs[..|rs| - 1], q, r);
    } else {
      assert r in Cut(r, q);
    }
  }

  /** Where the last range of the partition starts, in terms of the accepts alone. */
  lemma LastRangeLow(size: nat, ps: seq<Span>)
    requires PairwiseDisjoint(ps)
    requires forall p :: p in ps ==> p.start < p.end <= size
    requires size >= HIGH_MEMORY_SPLIT
    ensures var rs := AcceptAll(Fresh(size), ps);
            rs != [] && (rs[|rs| - 1].start <= TWO_GIB <==> forall p :: p in ps ==> KeepsLowMemory(p, size))
  {
    DisjointAcceptsPartition(size, ps);
    var rs := AcceptAll(Fresh(size), ps);
    assert rs != [];
    var init, last := rs[..|rs| - 1], rs[|rs| - 1];
    ChainWithin(init, 0, last.start);
    if last.start <= TWO_GIB {
      forall p | p in ps
        ensures KeepsLowMemory(p, size)
      {
        AcceptedKept(size, ps, p);
        assert Accepted(p) in init || Accepted(p) == last;
      }
    } else if last.accepted {
      AcceptedOrigin(size, ps, last);
      assert !KeepsLowMemory(Span(last.start, last.end), size);
    } else {
      assert init != [];
      var prev := init[|init| - 1];
      assert prev == rs[|rs| - 2];
      AcceptedOrigin(size, ps, prev);
      NonEmptyRanges(size, ps);
      assert !KeepsLowMemory(Span(prev.start, prev.end), size);
    }
  }

  lemma {:induction false} NonEmptyRanges(size: nat, ps: seq<Span>)
    requires size > 0
    ensures forall r :: r in AcceptAll(Fresh(size), ps) ==> r.start < r.end
  {
    if ps != [] {
      var init, p := ps[..|ps| - 1], ps[|ps| - 1];
      NonEmptyRanges(size, init);
      var rs := AcceptAll(Fresh(size), init);
      if p.start < p.end {
        CutAllNonEmpty(rs, p);
        var c := CutAll(rs, p) + [Accepted(p)];
        forall r | r in Sort(c, StartOf)
          ensures r.start < r.end
        {
          assert r in multiset(Sort(c, StartOf));
          assert r in c;
        }
      }
    }
  }

  lemma {:induction false} CutAllNonEmpty(rs: seq<Range>, p: Span)
    requires forall r :: r in rs ==> r.start < r.end
    ensures forall r :: r in CutAll(rs, p) ==> r.start < r.end
  {
    if rs != [] {
      CutAllNonEmpty(rs[..|rs| - 1], p);
    }
  }

  /** For disjoint accepts inside memory the HOB list always exists, and the resource lengths
      add up to the memory size exactly when every accept keeps the split at 2 GiB intact. */
  lemma MemoryIsConserved(size: nat, ps: seq<Span>)
    requires PairwiseDisjoint(ps)
    requires forall p :: p in ps ==> p.start < p.end <= size
    ensures HobList(AcceptAll(Fresh(size), ps), size).Ok?
    ensures TotalLength(HobList(AcceptAll(Fresh(size), ps), size).value) == size <==>
            size < HIGH_MEMORY_SPLIT || forall p :: p in ps ==> KeepsLowMemory(p, size)
  {
    DisjointAcceptsPartition(size, ps);
    var rs := AcceptAll(Fresh(size), ps);
    if rs == [] {
      AcceptAllNonEmpty(size, ps);
    }
    HobListTotal(rs, size);
    if size >= HIGH_MEMORY_SPLIT {
      LastRangeLow(size, ps);
    }
  }

  lemma {:induction false} AcceptAllNonEmpty(size: nat, ps: seq<Span>)
    ensures AcceptAll(Fresh(size), ps) != []
  {
    if ps != [] {
      AcceptAllNonEmpty(size, ps[..|ps| - 1]);
    }
  }

  /** An accept above 2 GiB that does miscount: 0xB0000000 bytes of memory reported as 0xD0000000. */
  lemma HighAcceptMiscounts()
    ensures var size, ps := 0xB000_0000, [Span(0x9000_0000, 0xA000_0000)];
            var hobs := HobList(AcceptAll(Fresh(size), ps), size);
            hobs.Ok? && TotalLength(hobs.value) == 0xD000_0000
  {
    var size, p := 0xB000_0000, Span(0x9000_0000, 0xA000_0000);
    OneAcceptHobs(size, p);
    hide AcceptAll, HobList;
    var low, accepted := Hob(HOB_UNACCEPTED, 0, p.start), Hob(HOB_SYSTEM_MEMORY, p.start, p.end - p.start);
    var high := Hob(HOB_UNACCEPTED, FOUR_GIB, 0x3000_0000);
    assert LastHobs(Range(false, p.end, size), size) == [high];
    hide LastHobs;
    TotalOfThree(low, accepted, high);
  }

  lemma TotalOfThree(a: Hob, b: Hob, c: Hob)
    ensures TotalLength([a] + [b] + [c]) == a.length + b.length + c.length
  {
    hide TotalLength;
    TotalLengthSplit([a] + [b], [c]);
    TotalLengthSplit([a], [b]);
    TotalLengthOne(a);
    TotalLengthOne(b);
    TotalLengthOne(c);
  }

  /** The HOBs after one accept in the middle of memory. */
  lemma OneAcceptHobs(size: nat, p: Span)
    requires 0 < p.start < p.end < size
    ensures HobList(AcceptAll(Fresh(size), [p]), size)
            == Ok([Hob(HOB_UNACCEPTED, 0, p.start)] + [Hob(HOB_SYSTEM_MEMORY, p.start, p.end - p.start)]
                  + LastHobs(Range(false, p.end, size), size))
  {
    var a, b, c := Range(false, 0, p.start), Accepted(p), Range(false, p.end, size);
    hide AcceptAll, LastHobs, RangeHobs, HobList, Fresh;
    assert RangeHob(a) == Hob(HOB_UNACCEPTED, 0, p.start);
    assert RangeHob(b) == Hob(HOB_SYSTEM_MEMORY, p.start, p.end - p.start);
    hide RangeHob, Accepted;
    AcceptOnce(size, p);
    RangeHobsTwo(a, b);
    HobListOf([a] + [b], c, size);
  }

  lemma RangeHobsAppend(rs: seq<Range>, r: Range)
    requires RangeHobs(rs).Ok? && r.start <= r.end
    ensures RangeHobs(rs + [r]) == Ok(RangeHobs(rs).value + [RangeHob(r)])
  {
    assert (rs + [r])[..|rs|] == rs;
  }

  lemma RangeHobsTwo(a: Range, b: Range)
    requires a.start <= a.end && b.start <= b.end
    ensures RangeHobs([a] + [b]) == Ok([RangeHob(a)] + [RangeHob(b)])
  {
    assert RangeHobs([]) == Ok([]);
    hide RangeHobs, RangeHob;
    RangeHobsAppend([], a);
    assert [] + [a] == [a] && [] + [RangeHob(a)] == [RangeHob(a)];
    RangeHobsAppend([a], b);
  }

  lemma HobListOf(init: seq<Range>, last: Range, memorySize: nat)
    requires RangeHobs(init).Ok? && last.start <= last.end
    ensures HobList(init + [last], memorySize) == Ok(RangeHobs(init).value + LastHobs(last, memorySize))
  {
    hide RangeHobs, LastHobs;
    assert (init + [last])[..|init|] == init;
  }
}
