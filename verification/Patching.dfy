/** Overwriting fields of a byte buffer, in order. */
module Patching {
  import opened Common

  datatype Write = Write(at: nat, bytes: ByteString)

  predicate Fits(ws: seq<Write>, n: nat) {
    forall w :: w in ws ==> w.at + |w.bytes| <= n
  }

  function Apply(k: ByteString, ws: seq<Write>): (r: ByteString)
    requires Fits(ws, |k|)
    ensures |r| == |k|
  {
    if ws == [] then k
    else Splice(Apply(k, ws[..|ws| - 1]), ws[|ws| - 1].at, ws[|ws| - 1].bytes)
  }

  predicate Covers(w: Write, i: int) {
    w.at <= i < w.at + |w.bytes|
  }

  /** The byte the last write covering `i` puts there. */
  function Written(ws: seq<Write>, i: int): Option<Byte> {
    if ws == [] then None
    else if Covers(ws[|ws| - 1], i) then Some(ws[|ws| - 1].bytes[i - ws[|ws| - 1].at])
    else Written(ws[..|ws| - 1], i)
  }

  lemma {:induction false} ApplyAt(k: ByteString, ws: seq<Write>, i: nat)
    requires Fits(ws, |k|) && i < |k|
    ensures Apply(k, ws)[i] == if Written(ws, i).Some? then Written(ws, i).value else k[i]
  {
    if ws != [] {
      ApplyAt(k, ws[..|ws| - 1], i);
      var w := ws[|ws| - 1];
      if Covers(w, i) {
        assert Apply(k, ws)[w.at..w.at + |w.bytes|][i - w.at] == w.bytes[i - w.at];
      }
    }
  }

  lemma ApplyTwice(k: ByteString, ws: seq<Write>)
    requires Fits(ws, |k|)
    ensures Apply(Apply(k, ws), ws) == Apply(k, ws)
  {
    hide Apply, Written;
    forall i | 0 <= i < |k|
      ensures Apply(Apply(k, ws), ws)[i] == Apply(k, ws)[i]
    {
      ApplyAt(k, ws, i);
      ApplyAt(Apply(k, ws), ws, i);
    }
  }

  lemma ApplyAppend(k: ByteString, ws: seq<Write>, w: Write)
    requires Fits(ws + [w], |k|)
    ensures Fits(ws, |k|) && Apply(k, ws + [w]) == Splice(Apply(k, ws), w.at, w.bytes)
  {
    assert forall v :: v in ws ==> v in ws + [w];
    assert (ws + [w])[..|ws|] == ws;
  }

  lemma ApplyNothing(k: ByteString)
    ensures Apply(k, []) == k
  {
  }

  lemma {:induction false} WrittenOnly(ws: seq<Write>, i: int, b: Byte)
    requires forall w :: w in ws && Covers(w, i) ==> w.bytes[i - w.at] == b
    ensures Written(ws, i) == None || Written(ws, i) == Some(b)
  {
    if ws != [] {
      assert ws[|ws| - 1] in ws;
      WrittenOnly(ws[..|ws| - 1], i, b);
    }
  }

  predicate Clear(ws: seq<Write>, from: nat, to: nat) {
    forall w :: w in ws ==> w.at + |w.bytes| <= from || to <= w.at
  }

  lemma {:induction false} WrittenClear(ws: seq<Write>, from: nat, to: nat, i: int)
    requires Clear(ws, from, to) && from <= i < to
    ensures Written(ws, i) == None
  {
    if ws != [] {
      assert ws[|ws| - 1] in ws;
      WrittenClear(ws[..|ws| - 1], from, to, i);
    }
  }

  lemma Untouched(k: ByteString, ws: seq<Write>, from: nat, to: nat)
    requires Fits(ws, |k|) && from <= to <= |k| && Clear(ws, from, to)
    ensures Apply(k, ws)[from..to] == k[from..to]
  {
    hide Apply, Written;
    forall i | from <= i < to
      ensures Apply(k, ws)[i] == k[i]
    {
      ApplyAt(k, ws, i);
      WrittenClear(ws, from, to, i);
    }
  }

  lemma SpliceSame(s: ByteString, at: nat, v: ByteString)
    requires at + |v| <= |s| && s[at..at + |v|] == v
    ensures Splice(s, at, v) == s
  {
    assert s == s[..at] + s[at..at + |v|] + s[at + |v|..];
  }

  predicate Disjoint(v: Write, w: Write) {
    v.at + |v.bytes| <= w.at || w.at + |w.bytes| <= v.at
  }

  predicate PairwiseDisjoint(fields: seq<Write>) {
    forall i, j :: 0 <= i < j < |fields| ==> Disjoint(fields[i], fields[j])
  }

  lemma DisjointAppend(a: seq<Write>, b: seq<Write>)
    requires PairwiseDisjoint(a) && PairwiseDisjoint(b)
    requires forall v, w :: v in a && w in b ==> Disjoint(v, w)
    ensures PairwiseDisjoint(a + b)
  {
    hide Disjoint;
  }

  /** Each field ends before the next begins. */
  predicate Ascending(fields: seq<Write>) {
    forall i :: 0 <= i < |fields| - 1 ==> fields[i].at + |fields[i].bytes| <= fields[i + 1].at
  }

  lemma {:induction false} AscendingBefore(fields: seq<Write>, i: nat, j: nat)
    requires Ascending(fields) && i < j < |fields|
    ensures fields[i].at + |fields[i].bytes| <= fields[j].at
    decreases j
  {
    if i < j - 1 {
      AscendingBefore(fields, i, j - 1);
    }
    assert fields[j - 1].at + |fields[j - 1].bytes| <= fields[j].at;
  }

  lemma AscendingDisjoint(fields: seq<Write>)
    requires Ascending(fields)
    ensures PairwiseDisjoint(fields)
  {
    forall i, j | 0 <= i < j < |fields|
      ensures Disjoint(fields[i], fields[j])
    {
      AscendingBefore(fields, i, j);
    }
  }

  /** A field no later write overlaps still holds its bytes at the end. */
  lemma {:induction false} FieldStands(image: ByteString, fields: seq<Write>, w: Write)
    requires Fits(fields, |image|) && PairwiseDisjoint(fields) && w in fields
    ensures Apply(image, fields)[w.at..w.at + |w.bytes|] == w.bytes
    decreases |fields|
  {
    var last := fields[|fields| - 1];
    var init := fields[..|fields| - 1];
    if w in init {
      FieldStands(image, init, w);
      hide Apply;
      assert fields == init + [last];
      ApplyAppend(image, init, last);
      var k :| 0 <= k < |init| && init[k] == w;
      assert Disjoint(fields[k], last);
      SpliceBeside(Apply(image, init), last, w);
    }
  }

  lemma SpliceBeside(q: ByteString, v: Write, w: Write)
    requires v.at + |v.bytes| <= |q| && w.at + |w.bytes| <= |q| && Disjoint(w, v)
    ensures Splice(q, v.at, v.bytes)[w.at..w.at + |w.bytes|] == q[w.at..w.at + |w.bytes|]
  {
    hide Splice;
  }

  // ----- in place -----

  method WriteBytes(kd: array<Byte>, at: nat, v: ByteString)
    requires at + |v| <= kd.Length
    modifies kd
    ensures kd[..] == Splice(old(kd[..]), at, v)
  {
    for i := 0 to |v|
      invariant kd[at..at + i] == v[..i]
      invariant forall j :: 0 <= j < kd.Length && !(at <= j < at + i) ==> kd[j] == old(kd[j])
    {
      kd[at + i] := v[i];
      assert v[..i + 1] == v[..i] + [v[i]];
    }
    assert v[..|v|] == v;
    forall j | 0 <= j < kd.Length
      ensures kd[j] == Splice(old(kd[..]), at, v)[j]
    {
      if at <= j < at + |v| {
        assert kd[at..at + |v|][j - at] == v[j - at];
      }
    }
  }

  /** One more write on top of the recorded ones. */
  method Put(kd: array<Byte>, ghost k: ByteString, ghost ws: seq<Write>, at: nat, v: ByteString)
    requires kd.Length == |k| && Fits(ws, |k|) && at + |v| <= |k|
    requires kd[..] == Apply(k, ws)
    modifies kd
    ensures Fits(ws + [Write(at, v)], |k|) && kd[..] == Apply(k, ws + [Write(at, v)])
  {
    hide Apply, Splice;
    WriteBytes(kd, at, v);
    ApplyAppend(k, ws, Write(at, v));
  }
}
