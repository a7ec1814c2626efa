/** Where the memory is that the TD HOB list reports: below 2 GiB and, for large guests, from 4 GiB on. */
module TdHobExtents {
  import opened Common
  import opened MemoryAcceptance
  import opened TdHob

  predicate Covers(h: Hob, x: int) {
    h.start <= x < h.start + h.length
  }

  predicate Covered(hobs: seq<Hob>, x: int) {
    exists i :: 0 <= i < |hobs| && Covers(hobs[i], x)
  }

  predicate CoveredBy(hobs: seq<Hob>, resource: Byte, x: int) {
    exists i :: 0 <= i < |hobs| && hobs[i].resource == resource && Covers(hobs[i], x)
  }

  /** In address order and apart. */
  predicate InOrder(hobs: seq<Hob>) {
    forall i, j :: 0 <= i < j < |hobs| ==> hobs[i].start + hobs[i].length <= hobs[j].start
  }

  /** The guest addresses of `size` bytes of memory: one block, or 2 GiB and the rest from 4 GiB on. */
  predicate InRam(size: nat, x: int) {
    if size < 0xB000_0000 then 0 <= x < size
    else 0 <= x < 0x8000_0000 || 0x1_0000_0000 <= x < size + 0x8000_0000
  }

  /** The accept leaves the start of the last range at or below 2 GiB. */
  predicate KeepsSplit(p: Span, size: nat) {
    p.end <= 0x8000_0000 || (p.start <= 0x8000_0000 && p.end == size)
  }

  lemma CoveredAppend(a: seq<Hob>, b: seq<Hob>, x: int)
    ensures Covered(a + b, x) <==> Covered(a, x) || Covered(b, x)
  {
    if i :| 0 <= i < |a| && Covers(a[i], x) {
      assert Covers((a + b)[i], x);
    }
    if i :| 0 <= i < |b| && Covers(b[i], x) {
      assert Covers((a + b)[|a| + i], x);
    }
  }

  lemma CoveredByAppend(a: seq<Hob>, b: seq<Hob>, resource: Byte, x: int)
    ensures CoveredBy(a + b, resource, x) <==> CoveredBy(a, resource, x) || CoveredBy(b, resource, x)
  {
    if i :| 0 <= i < |a| && a[i].resource == resource && Covers(a[i], x) {
      assert Covers((a + b)[i], x);
    }
    if i :| 0 <= i < |b| && b[i].resource == resource && Covers(b[i], x) {
      assert Covers((a + b)[|a| + i], x);
    }
  }

  // ----- all ranges but the last -----

  /** A chain of ranges: HOB by HOB the same extents, with 0x00 for accepted and 0x07 for others. */
  lemma {:induction false} RangeHobsAre(rs: seq<Range>, to: nat)
    requires Chain(rs, 0, to)
    ensures RangeHobs(rs).Ok? && |RangeHobs(rs).value| == |rs|
    ensures forall i :: 0 <= i < |rs| ==>
              && rs[i].start <= rs[i].end <= to
              && RangeHobs(rs).value[i]
                 == Hob(if rs[i].accepted then 0x00 else 0x07, rs[i].start, rs[i].end - rs[i].start)
  {
    if rs != [] {
      RangeHobsAre(rs[..|rs| - 1], rs[|rs| - 1].start);
    }
  }

  lemma {:induction false} ChainOrdered(rs: seq<Range>, to: nat, i: nat, j: nat)
    requires Chain(rs, 0, to) && i < j < |rs|
    ensures rs[i].end <= rs[j].start
    decreases |rs|
  {
    var init, last := rs[..|rs| - 1], rs[|rs| - 1];
    if j < |init| {
      ChainOrdered(init, last.start, i, j);
    } else {
      ChainWithin(init, 0, last.start);
      assert init[i] in init;
    }
  }

  lemma {:induction false} ChainCovers(rs: seq<Range>, to: nat, x: int)
    requires Chain(rs, 0, to)
    ensures (exists i :: 0 <= i < |rs| && rs[i].start <= x < rs[i].end) <==> 0 <= x < to
  {
    if rs != [] {
      var init, last := rs[..|rs| - 1], rs[|rs| - 1];
      ChainCovers(init, last.start, x);
      if last.start <= x < last.end {
        assert rs[|rs| - 1] == last;
      } else if 0 <= x < to {
        var i :| 0 <= i < |init| && init[i].start <= x < init[i].end;
        assert rs[i] == init[i];
      }
      if i :| 0 <= i < |rs| && rs[i].start <= x < rs[i].end {
        assert i < |init| ==> init[i] == rs[i];
        ChainWithin(init, 0, last.start);
      }
    }
  }

  lemma FrontCovers(rs: seq<Range>, to: nat, x: int)
    requires Chain(rs, 0, to)
    ensures RangeHobs(rs).Ok? && (Covered(RangeHobs(rs).value, x) <==> 0 <= x < to)
  {
    hide RangeHobs, Chain;
    RangeHobsAre(rs, to);
    ChainCovers(rs, to, x);
    var hobs := RangeHobs(rs).value;
    assert forall i :: 0 <= i < |rs| ==> (Covers(hobs[i], x) <==> rs[i].start <= x < rs[i].end);
  }

  lemma FrontInOrder(rs: seq<Range>, to: nat)
    requires Chain(rs, 0, to)
    ensures RangeHobs(rs).Ok? && InOrder(RangeHobs(rs).value)
    ensures forall i :: 0 <= i < |RangeHobs(rs).value| ==>
              RangeHobs(rs).value[i].start + RangeHobs(rs).value[i].length <= to
  {
    hide RangeHobs, Chain;
    RangeHobsAre(rs, to);
    var hobs := RangeHobs(rs).value;
    forall i, j | 0 <= i < j < |hobs|
      ensures hobs[i].start + hobs[i].length <= hobs[j].start
    {
      ChainOrdered(rs, to, i, j);
    }
  }

  // ----- the last range -----

  lemma LastCovers(last: Range, size: nat, x: int)
    requires last.start <= last.end == size && (size < 0xB000_0000 || last.start <= 0x8000_0000)
    ensures Covered(LastHobs(last, size), x) <==> InRam(size, x) && last.start <= x
  {
    var hobs := LastHobs(last, size);
    if size >= 0xB000_0000 {
      CoveredAppend(LowHob(last), HighHob(last), x);
      assert HighHob(last)[0] == Hob(0x07, 0x1_0000_0000, size - 0x8000_0000);
      if last.start < 0x8000_0000 {
        assert LowHob(last)[0] == Hob(0x07, last.start, 0x8000_0000 - last.start);
      }
    } else {
      assert hobs[0] == Hob(0x07, last.start, size - last.start);
    }
  }

  lemma LastUnaccepted(last: Range, size: nat)
    requires last.start <= last.end == size && (size < 0xB000_0000 || last.start <= 0x8000_0000)
    ensures forall i :: 0 <= i < |LastHobs(last, size)| ==>
              LastHobs(last, size)[i].resource == 0x07 && LastHobs(last, size)[i].start >= last.start
    ensures InOrder(LastHobs(last, size))
  {
  }

  // ----- the whole list -----

  lemma OrderAppend(a: seq<Hob>, b: seq<Hob>, mid: nat)
    requires InOrder(a) && InOrder(b) && forall i :: 0 <= i < |a| ==> a[i].start + a[i].length <= mid
    requires forall i :: 0 <= i < |b| ==> mid <= b[i].start
    ensures InOrder(a + b)
  {
  }

  ghost predicate Accepts(size: nat, ps: seq<Span>) {
    && PairwiseDisjoint(ps) && (forall p :: p in ps ==> p.start < p.end <= size)
    && (size < 0xB000_0000 || forall p :: p in ps ==> KeepsSplit(p, size))
  }

  /** `init` and `last` make up the ranges of memory, and the list is made from them. */
  ghost predicate Behind(size: nat, init: seq<Range>, last: Range) {
    && Chain(init + [last], 0, size) && Chain(init, 0, last.start) && last.start <= last.end == size
    && (size < 0xB000_0000 || last.start <= 0x8000_0000)
    && RangeHobs(init).Ok?
    && HobList(init + [last], size) == Ok(RangeHobs(init).value + LastHobs(last, size))
  }

  /** The partition behind the list. */
  lemma Partition(size: nat, ps: seq<Span>) returns (init: seq<Range>, last: Range)
    requires Accepts(size, ps)
    ensures AcceptAll(Fresh(size), ps) == init + [last] && Behind(size, init, last)
  {
    hide AcceptAll, RangeHobs, LastHobs;
    DisjointAcceptsPartition(size, ps);
    AcceptAllNonEmpty(size, ps);
    var rs := AcceptAll(Fresh(size), ps);
    init, last := rs[..|rs| - 1], rs[|rs| - 1];
    assert rs == init + [last];
    RangeHobsAre(init, last.start);
    if size >= 0xB000_0000 {
      LastRangeLow(size, ps);
    }
  }

  /** For disjoint accepts inside memory that keep the split, the HOBs lie in address order without
      overlapping, and together they cover exactly the guest's memory. */
  lemma HobsCoverRam(size: nat, ps: seq<Span>, x: int)
    requires Accepts(size, ps)
    ensures HobList(AcceptAll(Fresh(size), ps), size).Ok?
    ensures var hobs := HobList(AcceptAll(Fresh(size), ps), size).value;
            InOrder(hobs) && (Covered(hobs, x) <==> InRam(size, x))
  {
    hide AcceptAll, RangeHobs, LastHobs, HobList, Chain, Covered, InOrder, Accepts;
    var init, last := Partition(size, ps);
    var front, back := RangeHobs(init).value, LastHobs(last, size);
    FrontCovers(init, last.start, x);
    LastCovers(last, size, x);
    CoveredAppend(front, back, x);
    FrontInOrder(init, last.start);
    LastUnaccepted(last, size);
    OrderAppend(front, back, last.start);
  }

  /** Memory is reported accepted (0x00) exactly where a span was accepted that does not reach the end
      of memory, and unaccepted (0x07) everywhere else. */
  lemma AcceptedExactly(size: nat, ps: seq<Span>, x: int)
    requires Accepts(size, ps)
    ensures HobList(AcceptAll(Fresh(size), ps), size).Ok?
    ensures var hobs := HobList(AcceptAll(Fresh(size), ps), size).value;
            && (CoveredBy(hobs, 0x00, x) <==> exists p :: p in ps && p.start <= x < p.end && p.end < size)
            && (forall i :: 0 <= i < |hobs| ==> hobs[i].resource == 0x00 || hobs[i].resource == 0x07)
  {
    hide AcceptAll, RangeHobs, LastHobs, HobList, Chain, Accepts;
    var init, last := Partition(size, ps);
    var front, back := RangeHobs(init).value, LastHobs(last, size);
    RangeHobsAre(init, last.start);
    LastUnaccepted(last, size);
    CoveredByAppend(front, back, 0x00, x);
    assert CoveredBy(front, 0x00, x)
           <==> exists i :: 0 <= i < |init| && init[i].accepted && init[i].start <= x < init[i].end by {
      assert forall i :: 0 <= i < |init| ==> (front[i].resource == 0x00 <==> init[i].accepted);
      assert forall i :: 0 <= i < |init| ==> (Covers(front[i], x) <==> init[i].start <= x < init[i].end);
    }
    hide CoveredBy;
    AcceptedRanges(size, ps, x, init + [last]);
    assert forall i :: 0 <= i < |init| ==> (init + [last])[i] == init[i];
  }

  /** The accepted ranges before the last are the accepts that end before memory does. */
  lemma AcceptedRanges(size: nat, ps: seq<Span>, x: int, rs: seq<Range>)
    requires Accepts(size, ps) && rs == AcceptAll(Fresh(size), ps) && rs != [] && Chain(rs, 0, size)
    ensures (exists i :: 0 <= i < |rs| - 1 && rs[i].accepted && rs[i].start <= x < rs[i].end)
            <==> exists p :: p in ps && p.start <= x < p.end && p.end < size
  {
    hide AcceptAll, Chain;
    var last := rs[|rs| - 1];
    if i :| 0 <= i < |rs| - 1 && rs[i].accepted && rs[i].start <= x < rs[i].end {
      AcceptedOrigin(size, ps, rs[i]);
      ChainOrdered(rs, size, i, |rs| - 1);
      NonEmptyLast(size, ps, rs);
      assert Span(rs[i].start, rs[i].end) in ps;
    }
    if p :| p in ps && p.start <= x < p.end && p.end < size {
      AcceptedKept(size, ps, p);
      var i :| 0 <= i < |rs| && rs[i] == Accepted(p);
      LastEnds(rs, size);
      assert i < |rs| - 1;
    }
  }

  lemma LastEnds(rs: seq<Range>, size: nat)
    requires rs != [] && Chain(rs, 0, size)
    ensures rs[|rs| - 1].end == size && rs[|rs| - 1].start <= size
  {
  }

  lemma NonEmptyLast(size: nat, ps: seq<Span>, rs: seq<Range>)
    requires Accepts(size, ps) && rs == AcceptAll(Fresh(size), ps) && rs != [] && Chain(rs, 0, size) && size > 0
    ensures rs[|rs| - 1].start < rs[|rs| - 1].end == size
  {
    hide AcceptAll;
    NonEmptyRanges(size, ps);
    assert rs[|rs| - 1] in rs;
  }
}
