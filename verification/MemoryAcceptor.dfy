/** The list of guest memory ranges, accepted or not, behind the TD HOB. */
module MemoryAcceptance {
  import opened Sequences

  datatype Range = Range(accepted: bool, start: nat, end: nat)

  /** A half-open interval of guest addresses that the firmware accepts. */
  datatype Span = Span(start: nat, end: nat)

  function StartOf(r: Range): int {
    r.start
  }

  predicate Within(x: int, p: Span) {
    p.start <= x < p.end
  }

  function Piece(a: nat, b: nat): seq<Range> {
    if a < b then [Range(false, a, b)] else []
  }

  /** What is left of one range once `p` is taken out of it. */
  function Cut(r: Range, p: Span): seq<Range> {
    if r.accepted || r.end <= p.start || r.start >= p.end then [r]
    else Piece(r.start, p.start) + Piece(p.end, r.end)
  }

  function Cutter(p: Span): Range -> seq<Range> {
    (r: Range) => Cut(r, p)
  }

  function CutAll(rs: seq<Range>, p: Span): seq<Range> {
    FlatMap(rs, Cutter(p))
  }

  function Accepted(p: Span): Range {
    Range(true, p.start, p.end)
  }

  function AcceptOne(rs: seq<Range>, p: Span): seq<Range> {
    if p.start >= p.end then rs else Sort(CutAll(rs, p) + [Accepted(p)], StartOf)
  }

  function AcceptAll(rs: seq<Range>, ps: seq<Span>): seq<Range> {
    if ps == [] then rs else AcceptOne(AcceptAll(rs, ps[..|ps| - 1]), ps[|ps| - 1])
  }

  lemma AcceptAllAppend(rs: seq<Range>, ps: seq<Span>, p: Span)
    ensures AcceptAll(rs, ps + [p]) == AcceptOne(AcceptAll(rs, ps), p)
  {
    hide AcceptOne;
    assert (ps + [p])[..|ps|] == ps;
  }

  /** The range list of a fresh acceptor. */
  function Fresh(size: nat): seq<Range> {
    [Range(false, 0, size)]
  }

  class MemoryAcceptor {
    var ranges: seq<Range>

    constructor (start: nat, size: nat)
      ensures ranges == [Range(false, start, start + size)]
    {
      ranges := [Range(false, start, start + size)];
    }

    method Accept(p: Span)
      modifies this
      ensures ranges == AcceptOne(old(ranges), p)
    {
      if p.start >= p.end {
        return;
      }
      var newRanges := [];
      for i := 0 to |ranges|
        invariant ranges == old(ranges)
        invariant newRanges == CutAll(ranges[..i], p)
      {
        assert ranges[..i + 1][..i] == ranges[..i];
        var r := ranges[i];
        if r.accepted || r.end <= p.start || r.start >= p.end {
          newRanges := newRanges + [r];
        } else {
          if r.start < p.start {
            newRanges := newRanges + [Range(false, r.start, p.start)];
          }
          if r.end > p.end {
            newRanges := newRanges + [Range(false, p.end, r.end)];
          }
        }
      }
      assert ranges[..|ranges|] == ranges;
      newRanges := newRanges + [Accepted(p)];
      ranges := Sort(newRanges, StartOf);
    }
  }

  // ----- the shape every reachable list has -----

  /** Everything in `rs` starts no later than `x`, and nothing unaccepted reaches past it. */
  predicate Before(rs: seq<Range>, x: int) {
    forall r :: r in rs ==> r.start <= x && (!r.accepted ==> r.end <= x)
  }

  /** Sorted by start, and every unaccepted range ends before the next range starts. */
  predicate Laid(rs: seq<Range>) {
    rs == [] ||
    (Laid(rs[..|rs| - 1]) && Before(rs[..|rs| - 1], rs[|rs| - 1].start)
     && rs[|rs| - 1].start <= rs[|rs| - 1].end)
  }

  lemma {:induction false} LaidSpread(rs: seq<Range>)
    requires Laid(rs)
    ensures Sorted(rs, StartOf)
    ensures forall i, j :: 0 <= i < j < |rs| && !rs[i].accepted ==> rs[i].end <= rs[j].start
    ensures forall i :: 0 <= i < |rs| ==> rs[i].start <= rs[i].end
  {
    if rs != [] {
      var init, last := rs[..|rs| - 1], rs[|rs| - 1];
      LaidSpread(init);
      forall i, j | 0 <= i < j < |rs|
        ensures rs[i].start <= rs[j].start && (!rs[i].accepted ==> rs[i].end <= rs[j].start)
      {
        assert init[i] in init;
        if j < |init| {
          assert StartOf(init[i]) <= StartOf(init[j]);
        }
      }
      forall i | 0 <= i < |rs|
        ensures rs[i].start <= rs[i].end
      {
        assert i < |init| ==> rs[i] == init[i];
      }
    }
  }

  lemma {:induction false} LaidAppend(a: seq<Range>, r: Range)
    requires Laid(a) && Before(a, r.start) && r.start <= r.end
    ensures Laid(a + [r])
  {
    assert (a + [r])[..|a|] == a;
  }

  /** No unaccepted range meets `p`. */
  predicate Clear(rs: seq<Range>, p: Span) {
    forall r :: r in rs && !r.accepted ==> r.end <= p.start || p.end <= r.start
  }

  lemma {:induction false} CutAllBefore(rs: seq<Range>, p: Span, x: int)
    requires Before(rs, x) && p.start < p.end
    ensures Before(CutAll(rs, p), x)
  {
    if rs != [] {
      CutAllBefore(rs[..|rs| - 1], p, x);
    }
  }

  lemma LaidAppendCut(a: seq<Range>, r: Range, p: Span)
    requires Laid(a) && Clear(a, p) && Before(a, r.start) && r.start <= r.end && p.start < p.end
    ensures Laid(a + Cut(r, p)) && Clear(a + Cut(r, p), p)
  {
    hide Laid;
    if r.accepted || r.end <= p.start || r.start >= p.end {
      LaidAppend(a, r);
    } else {
      var u, v := Piece(r.start, p.start), Piece(p.end, r.end);
      LaidAppendPiece(a, r.start, p.start);
      LaidAppendPiece(a + u, p.end, r.end);
      assert a + (u + v) == a + u + v;
    }
  }

  lemma LaidAppendPiece(a: seq<Range>, x: nat, y: nat)
    requires Laid(a) && Before(a, x)
    ensures Laid(a + Piece(x, y)) && Before(a + Piece(x, y), Max(x, y))
  {
    hide Laid;
    if x < y {
      LaidAppend(a, Range(false, x, y));
    } else {
      assert a + Piece(x, y) == a;
    }
  }

  lemma {:induction false} CutAllLaid(rs: seq<Range>, p: Span)
    requires Laid(rs) && p.start < p.end
    ensures Laid(CutAll(rs, p))
    ensures Clear(CutAll(rs, p), p)
  {
    if rs != [] {
      var init, r := rs[..|rs| - 1], rs[|rs| - 1];
      CutAllLaid(init, p);
      CutAllBefore(init, p, r.start);
      LaidAppendCut(CutAll(init, p), r, p);
    }
  }

  lemma {:induction false} InsertLaid(rs: seq<Range>, p: Span)
    requires Laid(rs) && Clear(rs, p) && p.start < p.end
    ensures Laid(Insert(rs, Accepted(p), StartOf))
  {
    var x := Accepted(p);
    if rs == [] || rs[|rs| - 1].start <= p.start {
      LaidSpread(rs);
      LaidAppend(rs, x);
    } else {
      var init, r := rs[..|rs| - 1], rs[|rs| - 1];
      InsertLaid(init, p);
      var a := Insert(init, x, StartOf);
      forall y | y in a
        ensures y.start <= r.start && (!y.accepted ==> y.end <= r.start)
      {
        assert y in multiset(a);
        assert y in init || y == x;
      }
      LaidAppend(a, r);
    }
  }

  /** On a laid list, accepting is one insertion into the cut list. */
  lemma AcceptIsInsert(rs: seq<Range>, p: Span)
    requires Laid(rs) && p.start < p.end
    ensures AcceptOne(rs, p) == Insert(CutAll(rs, p), Accepted(p), StartOf)
    ensures Laid(AcceptOne(rs, p))
  {
    CutAllLaid(rs, p);
    var c := CutAll(rs, p);
    LaidSpread(c);
    SortOfSorted(c, StartOf);
    assert (c + [Accepted(p)])[..|c|] == c;
    InsertLaid(c, p);
  }

  lemma {:induction false} AcceptAllLaid(size: nat, ps: seq<Span>)
    ensures Laid(AcceptAll(Fresh(size), ps))
  {
    if ps == [] {
      LaidAppend([], Range(false, 0, size));
      assert [] + Fresh(size) == Fresh(size);
    } else {
      AcceptAllLaid(size, ps[..|ps| - 1]);
      var p := ps[|ps| - 1];
      if p.start < p.end {
        AcceptIsInsert(AcceptAll(Fresh(size), ps[..|ps| - 1]), p);
      }
    }
  }

  // ----- order independence -----

  lemma CutPieces(a: nat, m: nat, n: nat, b: nat, q: Span)
    ensures CutAll(Piece(a, m) + Piece(n, b), q) == CutPiece(a, m, q) + CutPiece(n, b, q)
  {
    FlatMapSplit(Piece(a, m), Piece(n, b), Cutter(q));
    FlatMapOne(Range(false, a, m), Cutter(q));
    FlatMapOne(Range(false, n, b), Cutter(q));
  }

  function CutPiece(a: nat, b: nat, q: Span): seq<Range> {
    if a < b then Cut(Range(false, a, b), q) else []
  }

  function Min(a: nat, b: nat): nat {
    if a < b then a else b
  }

  function Max(a: nat, b: nat): nat {
    if a < b then b else a
  }

  lemma CutPieceForm(a: nat, b: nat, q: Span)
    requires q.start < q.end
    ensures CutPiece(a, b, q) == Piece(a, Min(b, q.start)) + Piece(Max(a, q.end), b)
  {
  }

  lemma CutCommutes(r: Range, p: Span, q: Span)
    requires r.start <= r.end && p.start < p.end && q.start < q.end
    ensures CutAll(Cut(r, p), q) == CutAll(Cut(r, q), p)
  {
    if Clear([r], p) {
      FlatMapOne(r, Cutter(q));
      CutAllSame(Cut(r, q), p);
    } else if Clear([r], q) {
      FlatMapOne(r, Cutter(p));
      CutAllSame(Cut(r, p), q);
    } else if p.start <= q.start {
      CutBoth(r, p, q);
    } else {
      CutBoth(r, q, p);
    }
  }

  lemma CutBoth(r: Range, p: Span, q: Span)
    requires !Clear([r], p) && !Clear([r], q)
    requires r.start <= r.end && p.start < p.end && q.start < q.end && p.start <= q.start
    ensures CutAll(Cut(r, p), q) == CutAll(Cut(r, q), p)
  {
    CutPieces(r.start, p.start, p.end, r.end, q);
    CutPieces(r.start, q.start, q.end, r.end, p);
    CutPieceForm(r.start, p.start, q);
    CutPieceForm(p.end, r.end, q);
    CutPieceForm(r.start, q.start, p);
    CutPieceForm(q.end, r.end, p);
    CutBothForm(r.start, r.end, p, q);
  }

  lemma CutBothForm(from: nat, to: nat, p: Span, q: Span)
    requires from < p.end && q.start < to
    requires p.start < p.end && q.start < q.end && p.start <= q.start
    ensures
      (Piece(from, Min(p.start, q.start)) + Piece(Max(from, q.end), p.start))
      + (Piece(p.end, Min(to, q.start)) + Piece(Max(p.end, q.end), to))
      == (Piece(from, Min(q.start, p.start)) + Piece(Max(from, p.end), q.start))
         + (Piece(q.end, Min(to, p.start)) + Piece(Max(q.end, p.end), to))
  {
    var lo, mid, hi := Piece(from, p.start), Piece(p.end, q.start), Piece(Max(p.end, q.end), to);
    assert lo + (mid + hi) == (lo + mid) + hi;
    assert lo + [] == lo && [] + hi == hi;
  }

  lemma CutAllCommutes(rs: seq<Range>, p: Span, q: Span)
    requires Laid(rs) && p.start < p.end && q.start < q.end
    ensures CutAll(CutAll(rs, p), q) == CutAll(CutAll(rs, q), p)
  {
    LaidSpread(rs);
    forall r | r in rs
      ensures FlatMap(Cutter(p)(r), Cutter(q)) == FlatMap(Cutter(q)(r), Cutter(p))
    {
      CutCommutes(r, p, q);
    }
    FlatMapCommutes(rs, Cutter(p), Cutter(q));
  }

  /** Cutting `q` out passes over an accepted `p` that was inserted before. */
  lemma {:induction false} CutPastInsert(rs: seq<Range>, p: Span, q: Span)
    requires Laid(rs) && Clear(rs, p) && p.start < p.end && q.start < q.end
    ensures CutAll(Insert(rs, Accepted(p), StartOf), q) == Insert(CutAll(rs, q), Accepted(p), StartOf)
  {
    var x := Accepted(p);
    if rs == [] || rs[|rs| - 1].start <= p.start {
      ClearBefore(rs, p);
      hide FlatMap, Laid, Insert;
      CutAllBefore(rs, q, p.start);
      InsertLast(rs, x, StartOf);
      InsertLast(CutAll(rs, q), x, StartOf);
      FlatMapAppend(rs, x, Cutter(q));
    } else {
      var init, r := rs[..|rs| - 1], rs[|rs| - 1];
      CutPastInsert(init, p, q);
      hide FlatMap, Laid, Insert;
      InitLast(rs);
      InsertBeforeOne(init, r, x, StartOf);
      CutPastLast(init, r, x, q);
    }
  }

  lemma CutPastLast(init: seq<Range>, r: Range, x: Range, q: Span)
    requires x.start < r.start && q.start < q.end
    requires CutAll(Insert(init, x, StartOf), q) == Insert(CutAll(init, q), x, StartOf)
    ensures CutAll(Insert(init, x, StartOf) + [r], q) == Insert(CutAll(init + [r], q), x, StartOf)
  {
    hide FlatMap, Insert;
    assert forall y :: y in Cut(r, q) ==> y.start >= r.start;
    hide Cut;
    FlatMapPastLast(init, r, x, Cutter(q), StartOf);
  }

  lemma ClearBefore(rs: seq<Range>, p: Span)
    requires Laid(rs) && Clear(rs, p) && p.start < p.end
    requires rs == [] || rs[|rs| - 1].start <= p.start
    ensures Before(rs, p.start)
  {
    LaidSpread(rs);
    forall r | r in rs
      ensures r.start <= p.start
    {
      var i :| 0 <= i < |rs| && rs[i] == r;
      assert i < |rs| - 1 ==> StartOf(rs[i]) <= StartOf(rs[|rs| - 1]);
    }
  }

  /** Two accepts with different starts commute, whatever has been accepted before. */
  lemma AcceptCommutes(rs: seq<Range>, p: Span, q: Span)
    requires Laid(rs)
    requires p.start != q.start
    ensures AcceptOne(AcceptOne(rs, p), q) == AcceptOne(AcceptOne(rs, q), p)
  {
    if p.start < p.end && q.start < q.end {
      AcceptIsInsert(rs, p);
      AcceptIsInsert(rs, q);
      AcceptIsInsert(AcceptOne(rs, p), q);
      AcceptIsInsert(AcceptOne(rs, q), p);
      CutAllLaid(rs, p);
      CutAllLaid(rs, q);
      CutPastInsert(CutAll(rs, p), p, q);
      CutPastInsert(CutAll(rs, q), q, p);
      CutAllCommutes(rs, p, q);
      InsertCommutes(CutAll(CutAll(rs, p), q), Accepted(p), Accepted(q), StartOf);
    }
  }

  function SpanStart(p: Span): int {
    p.start
  }

  predicate DistinctStarts(ps: seq<Span>) {
    forall i, j :: 0 <= i < j < |ps| ==> ps[i].start != ps[j].start
  }

  lemma {:induction false} AcceptAllInsert(size: nat, ps: seq<Span>, p: Span)
    requires forall q :: q in ps ==> q.start != p.start
    ensures AcceptAll(Fresh(size), Insert(ps, p, SpanStart)) == AcceptOne(AcceptAll(Fresh(size), ps), p)
  {
    hide AcceptAll, AcceptOne, Laid;
    if ps == [] || ps[|ps| - 1].start <= p.start {
      AcceptAllAppend(Fresh(size), ps, p);
    } else {
      var init, last := ps[..|ps| - 1], ps[|ps| - 1];
      AcceptAllInsert(size, init, p);
      AcceptAllAppend(Fresh(size), Insert(init, p, SpanStart), last);
      AcceptAllAppend(Fresh(size), init, last);
      assert ps == init + [last];
      AcceptAllLaid(size, init);
      AcceptCommutes(AcceptAll(Fresh(size), init), p, last);
    }
  }

  /** Accepting in file order and accepting in address order build the same list. */
  lemma {:induction false} OrderIndependence(size: nat, ps: seq<Span>)
    requires DistinctStarts(ps)
    ensures AcceptAll(Fresh(size), Sort(ps, SpanStart)) == AcceptAll(Fresh(size), ps)
  {
    if ps != [] {
      var init, last := ps[..|ps| - 1], ps[|ps| - 1];
      OrderIndependence(size, init);
      var s := Sort(init, SpanStart);
      forall q | q in s
        ensures q.start != last.start
      {
        assert q in multiset(s);
        assert q in init;
      }
      AcceptAllInsert(size, s, last);
    }
  }

  // ----- coverage -----

  /** `x` lies in some range of `rs` that has not been accepted. */
  predicate Unaccepted(rs: seq<Range>, x: int) {
    exists r :: r in rs && !r.accepted && r.start <= x < r.end
  }

  lemma UnacceptedSplit(a: seq<Range>, b: seq<Range>, x: int)
    ensures Unaccepted(a + b, x) <==> Unaccepted(a, x) || Unaccepted(b, x)
  {
  }

  lemma CutUnaccepted(r: Range, p: Span, x: int)
    requires p.start < p.end
    ensures Unaccepted(Cut(r, p), x) <==> Unaccepted([r], x) && !Within(x, p)
  {
    var c := Cut(r, p);
    if !r.accepted && r.start <= x < r.end && !Within(x, p) {
      if r.end <= p.start || r.start >= p.end {
        assert r in c;
      } else if x < p.start {
        assert Range(false, r.start, p.start) in c;
      } else {
        assert Range(false, p.end, r.end) in c;
      }
    }
    if Unaccepted(c, x) {
      assert r in [r];
    }
  }

  lemma {:induction false} CutAllUnaccepted(rs: seq<Range>, p: Span, x: int)
    requires p.start < p.end
    ensures Unaccepted(CutAll(rs, p), x) <==> Unaccepted(rs, x) && !Within(x, p)
  {
    if rs != [] {
      var init, r := rs[..|rs| - 1], rs[|rs| - 1];
      CutAllUnaccepted(init, p, x);
      CutUnaccepted(r, p, x);
      UnacceptedSplit(CutAll(init, p), Cut(r, p), x);
      UnacceptedSplit(init, [r], x);
      assert rs == init + [r];
    }
  }

  lemma SortUnaccepted(rs: seq<Range>, x: int)
    ensures Unaccepted(Sort(rs, StartOf), x) <==> Unaccepted(rs, x)
  {
    var s := Sort(rs, StartOf);
    forall r
      ensures r in s <==> r in rs
    {
      assert r in s <==> r in multiset(s);
      assert r in rs <==> r in multiset(rs);
    }
  }

  /** `x` lies in none of the spans. */
  predicate Outside(ps: seq<Span>, x: int) {
    forall p :: p in ps ==> !Within(x, p)
  }

  lemma OutsideAppend(ps: seq<Span>, p: Span, x: int)
    ensures Outside(ps + [p], x) <==> Outside(ps, x) && !Within(x, p)
  {
    hide Within;
    assert p in ps + [p];
  }

  /** An accept takes out the points of its range, and no others. */
  lemma AcceptUnaccepted(rs: seq<Range>, p: Span, x: int)
    ensures Unaccepted(AcceptOne(rs, p), x) <==> Unaccepted(rs, x) && !Within(x, p)
  {
    hide Unaccepted, Sort, CutAll;
    if p.start < p.end {
      CutAllUnaccepted(rs, p, x);
      UnacceptedSplit(CutAll(rs, p), [Accepted(p)], x);
      SortUnaccepted(CutAll(rs, p) + [Accepted(p)], x);
      NoneUnaccepted(p, x);
    }
  }

  lemma NoneUnaccepted(p: Span, x: int)
    ensures !Unaccepted([Accepted(p)], x)
  {
  }

  /** After any accepts, in any order and overlapping or not, the unaccepted ranges hold
      exactly the points of memory outside every accepted range, and no point twice. */
  lemma {:induction false} Coverage(size: nat, ps: seq<Span>, x: int)
    ensures Unaccepted(AcceptAll(Fresh(size), ps), x) <==> 0 <= x < size && Outside(ps, x)
  {
    if ps == [] {
      assert Range(false, 0, size) in Fresh(size);
    } else {
      hide AcceptAll, AcceptOne, Unaccepted, Within, Outside;
      var init, p := ps[..|ps| - 1], ps[|ps| - 1];
      Coverage(size, init, x);
      assert ps == init + [p];
      OutsideAppend(init, p, x);
      AcceptAllAppend(Fresh(size), init, p);
      AcceptUnaccepted(AcceptAll(Fresh(size), init), p, x);
    }
  }

  lemma CoverageIsDisjoint(size: nat, ps: seq<Span>, i: nat, j: nat, x: int)
    requires i < j < |AcceptAll(Fresh(size), ps)|
    ensures var rs := AcceptAll(Fresh(size), ps);
            rs[i].start <= rs[j].start &&
            !(!rs[i].accepted && rs[i].start <= x < rs[i].end && rs[j].start <= x < rs[j].end)
  {
    AcceptAllLaid(size, ps);
    LaidSpread(AcceptAll(Fresh(size), ps));
  }

  // ----- disjoint accepts inside memory: a partition -----

  /** Each range starts where the one before it ends, from `from` to `to`. */
  predicate Chain(rs: seq<Range>, from: nat, to: nat) {
    if rs == [] then from == to
    else
      var last := rs[|rs| - 1];
      last.end == to && last.start <= last.end && Chain(rs[..|rs| - 1], from, last.start)
  }

  /** No two neighbours are both unaccepted. */
  predicate Alternates(rs: seq<Range>) {
    forall i :: 0 <= i < |rs| - 1 ==> rs[i].accepted || rs[i + 1].accepted
  }

  predicate DisjointSpans(p: Span, q: Span) {
    p.end <= q.start || q.end <= p.start
  }

  predicate PairwiseDisjoint(ps: seq<Span>) {
    forall i, j :: 0 <= i < j < |ps| ==> DisjointSpans(ps[i], ps[j])
  }

  lemma {:induction false} ChainJoin(a: seq<Range>, b: seq<Range>, from: nat, mid: nat, to: nat)
    requires Chain(a, from, mid) && Chain(b, mid, to)
    ensures Chain(a + b, from, to)
  {
    if b == [] {
      assert a + b == a;
    } else {
      var init, last := b[..|b| - 1], b[|b| - 1];
      ChainJoin(a, init, from, mid, last.start);
      assert (a + b)[..|a + b| - 1] == a + init;
    }
  }

  lemma {:induction false} ChainWithin(rs: seq<Range>, from: nat, to: nat)
    requires Chain(rs, from, to)
    ensures from <= to
    ensures forall r :: r in rs ==> from <= r.start <= r.end <= to
  {
    if rs != [] {
      ChainWithin(rs[..|rs| - 1], from, rs[|rs| - 1].start);
    }
  }

  predicate MeetsNoAccepted(rs: seq<Range>, p: Span) {
    forall r :: r in rs && r.accepted ==> DisjointSpans(Span(r.start, r.end), p)
  }

  /** A span that meets no accepted range of a chain lies inside one unaccepted range. */
  lemma {:induction false} SpanFits(rs: seq<Range>, from: nat, to: nat, p: Span)
    returns (a: seq<Range>, r: Range, b: seq<Range>)
    requires Chain(rs, from, to) && Alternates(rs) && MeetsNoAccepted(rs, p)
    requires from <= p.start < p.end <= to
    ensures rs == a + [r] + b && !r.accepted && r.start <= p.start && p.end <= r.end
    ensures Chain(a, from, r.start) && Chain(b, r.end, to)
  {
    hide MeetsNoAccepted, Alternates;
    var init, last := rs[..|rs| - 1], rs[|rs| - 1];
    assert rs == init + [last];
    if last.start <= p.start {
      LastIsFree(init, last, p);
      a, r, b := init, last, [];
    } else {
      EndsBefore(init, last, from, p);
      a, r, b := SpanFits(init, from, last.start, p);
      OneChain(last);
      ChainJoin(b, [last], r.end, last.start, to);
      assert a + [r] + b + [last] == a + [r] + (b + [last]);
      b := b + [last];
    }
  }

  lemma LastIsFree(init: seq<Range>, last: Range, p: Span)
    requires MeetsNoAccepted(init + [last], p) && last.start <= p.start < p.end <= last.end
    ensures !last.accepted
  {
    assert last in init + [last];
  }

  /** A span that begins before the last range ends before it. */
  lemma EndsBefore(init: seq<Range>, last: Range, from: nat, p: Span)
    requires Chain(init, from, last.start) && last.start <= last.end && Alternates(init + [last])
    requires MeetsNoAccepted(init + [last], p) && from <= p.start < last.start && p.start < p.end <= last.end
    ensures p.end <= last.start && MeetsNoAccepted(init, p) && Alternates(init)
  {
    var rs := init + [last];
    assert rs[|init|] == last && last in rs;
    assert forall i :: 0 <= i < |init| ==> rs[i] == init[i] && init[i] in rs;
    assert init != [] ==> rs[|init| - 1] in rs;
  }

  lemma OneChain(r: Range)
    requires r.start <= r.end
    ensures Chain([r], r.start, r.end)
  {
    assert [r][..0] == [];
  }

  lemma {:induction false} CutAllSame(rs: seq<Range>, p: Span)
    requires Clear(rs, p)
    ensures CutAll(rs, p) == rs
  {
    if rs != [] {
      CutAllSame(rs[..|rs| - 1], p);
    }
  }

  /** What accepting a fitting span does: the range is replaced in place. */
  lemma AcceptInPlace(a: seq<Range>, r: Range, b: seq<Range>, p: Span)
    requires Laid(a + [r] + b) && !r.accepted
    requires r.start <= p.start < p.end <= r.end
    requires forall y :: y in a ==> y.start <= y.end <= p.start
    requires forall y :: y in b ==> y.start >= p.end
    ensures AcceptOne(a + [r] + b, p) ==
            a + Piece(r.start, p.start) + [Accepted(p)] + (Piece(p.end, r.end) + b)
  {
    hide FlatMap, Insert, Sort, Laid, Cutter, Cut;
    var rs, lo, hi := a + [r] + b, a + Piece(r.start, p.start), Piece(p.end, r.end) + b;
    CutInPlace(a, r, b, p);
    AcceptIsInsert(rs, p);
    InsertBetween(lo, hi, Accepted(p), StartOf);
  }

  /** One accept in the middle of memory. */
  lemma AcceptOnce(size: nat, p: Span)
    requires 0 < p.start < p.end < size
    ensures AcceptAll(Fresh(size), [p]) == [Range(false, 0, p.start)] + [Accepted(p)] + [Range(false, p.end, size)]
  {
    hide AcceptOne, Accepted;
    var r := Range(false, 0, size);
    assert [] + [r] + [] == Fresh(size);
    AcceptInPlace([], r, [], p);
    assert AcceptAll(Fresh(size), [p][..0]) == Fresh(size);
  }

  lemma CutInPlace(a: seq<Range>, r: Range, b: seq<Range>, p: Span)
    requires !r.accepted && r.start <= p.start < p.end <= r.end
    requires forall y :: y in a ==> y.end <= p.start
    requires forall y :: y in b ==> y.start >= p.end
    ensures CutAll(a + [r] + b, p) == (a + Piece(r.start, p.start)) + (Piece(p.end, r.end) + b)
  {
    hide FlatMap;
    CutAllSame(a, p);
    CutAllSame(b, p);
    FlatMapAppend(a, r, Cutter(p));
    FlatMapSplit(a + [r], b, Cutter(p));
    var u, v := Piece(r.start, p.start), Piece(p.end, r.end);
    assert Cutter(p)(r) == u + v;
    hide Piece, Cut;
    assert a + (u + v) + b == (a + u) + (v + b);
  }

  lemma AcceptChain(rs: seq<Range>, size: nat, p: Span)
    requires Chain(rs, 0, size) && Alternates(rs) && Laid(rs) && MeetsNoAccepted(rs, p)
    requires p.start < p.end <= size
    ensures Chain(AcceptOne(rs, p), 0, size) && Alternates(AcceptOne(rs, p))
  {
    var a, r, b := SpanFits(rs, 0, size, p);
    ChainWithin(a, 0, r.start);
    ChainWithin(b, r.end, size);
    AcceptInPlace(a, r, b, p);
    var u, v := Piece(r.start, p.start), Piece(p.end, r.end);
    PieceChain(r.start, p.start);
    PieceChain(p.end, r.end);
    ChainJoin(a, u, 0, r.start, p.start);
    assert [Accepted(p)][..0] == [];
    ChainJoin(a + u, [Accepted(p)], 0, p.start, p.end);
    ChainJoin(v, b, p.end, r.end, size);
    ChainJoin(a + u + [Accepted(p)], v + b, 0, p.end, size);
    AlternatesInPlace(a, r, b, u, Accepted(p), v);
  }

  lemma PieceChain(x: nat, y: nat)
    requires x <= y
    ensures Chain(Piece(x, y), x, y)
  {
    if x < y {
      assert Piece(x, y)[..0] == [];
    }
  }

  lemma AlternatesInPlace(a: seq<Range>, r: Range, b: seq<Range>, u: seq<Range>, x: Range, v: seq<Range>)
    requires Alternates(a + [r] + b) && !r.accepted && x.accepted
    requires |u| <= 1 && |v| <= 1
    ensures Alternates(a + u + [x] + (v + b))
  {
    var rs, t := a + [r] + b, a + u + [x] + (v + b);
    forall i | 0 <= i < |t| - 1
      ensures t[i].accepted || t[i + 1].accepted
    {
      if i + 1 < |a| {
        assert rs[i].accepted || rs[i + 1].accepted;
      } else if i < |a| {
        assert rs[i] == a[i] && rs[i + 1] == r;
      } else if i > |a| + |u| + |v| {
        var j := i - |u| - |v|;
        assert t[i] == rs[j] && t[i + 1] == rs[j + 1];
        assert rs[j].accepted || rs[j + 1].accepted;
      } else if i == |a| + |u| + |v| && b != [] {
        assert rs[|a|].accepted || rs[|a| + 1].accepted;
      }
    }
  }

  /** Every accepted range of the list is one of the spans that were accepted. */
  lemma {:induction false} AcceptedOrigin(size: nat, ps: seq<Span>, r: Range)
    requires r in AcceptAll(Fresh(size), ps) && r.accepted
    ensures Span(r.start, r.end) in ps
  {
    if ps != [] {
      var init, p := ps[..|ps| - 1], ps[|ps| - 1];
      var rs := AcceptAll(Fresh(size), init);
      if p.start < p.end {
        var c := CutAll(rs, p) + [Accepted(p)];
        assert r in multiset(Sort(c, StartOf));
        assert r in multiset(c);
        if r in CutAll(rs, p) {
          CutAllOrigin(rs, p, r);
          AcceptedOrigin(size, init, r);
        } else {
          assert r == Accepted(p);
        }
      } else {
        AcceptedOrigin(size, init, r);
      }
    }
  }

  lemma {:induction false} CutAllOrigin(rs: seq<Range>, p: Span, r: Range)
    requires r in CutAll(rs, p) && r.accepted
    ensures r in rs
  {
    if rs != [] {
      if r in CutAll(rs[..|rs| - 1], p) {
        CutAllOrigin(rs[..|rs| - 1], p, r);
      } else {
        assert r == rs[|rs| - 1];
      }
    }
  }

  /** Disjoint non-empty accepts inside memory leave a sorted partition of [0, size). */
  lemma {:induction false} DisjointAcceptsPartition(size: nat, ps: seq<Span>)
    requires PairwiseDisjoint(ps)
    requires forall p :: p in ps ==> p.start < p.end <= size
    ensures Chain(AcceptAll(Fresh(size), ps), 0, size)
    ensures Alternates(AcceptAll(Fresh(size), ps))
  {
    if ps == [] {
      assert Fresh(size)[..0] == [];
    } else {
      var init, p := ps[..|ps| - 1], ps[|ps| - 1];
      DisjointAcceptsPartition(size, init);
      AcceptAllLaid(size, init);
      var rs := AcceptAll(Fresh(size), init);
      forall r | r in rs && r.accepted
        ensures DisjointSpans(Span(r.start, r.end), p)
      {
        AcceptedOrigin(size, init, r);
        var j :| 0 <= j < |init| && init[j] == Span(r.start, r.end);
        assert ps[j] == init[j];
      }
      AcceptChain(rs, size, p);
    }
  }
}
