/** `split` and `split_once` on strings, and joining back. */
module Splitting {
  import opened Common

  predicate Without(s: string, c: char) {
    forall i :: 0 <= i < |s| ==> s[i] != c
  }

  /** `split(c)`: always at least one part. */
  function Split(s: string, c: char): (parts: seq<string>)
    ensures |parts| >= 1
    ensures forall k :: 0 <= k < |parts| ==> Without(parts[k], c)
  {
    if s == [] then [[]]
    else
      var rest := Split(s[1..], c);
      if s[0] == c then [[]] + rest else [[s[0]] + rest[0]] + rest[1..]
  }

  function Join(parts: seq<string>, c: char): string
    requires |parts| >= 1
  {
    if |parts| == 1 then parts[0] else parts[0] + ([c] + Join(parts[1..], c))
  }

  lemma {:induction false} JoinSplit(s: string, c: char)
    ensures Join(Split(s, c), c) == s
  {
    if s != [] {
      JoinSplit(s[1..], c);
      var rest := Split(s[1..], c);
      assert s == [s[0]] + s[1..];
      if s[0] == c {
        var parts := [[]] + rest;
        assert parts[1..] == rest;
      } else {
        JoinFirst(rest, c, s[0]);
      }
    }
  }

  lemma JoinFirst(parts: seq<string>, c: char, d: char)
    requires |parts| >= 1
    ensures Join([[d] + parts[0]] + parts[1..], c) == [d] + Join(parts, c)
  {
    var more := [[d] + parts[0]] + parts[1..];
    assert more[1..] == parts[1..];
    if |parts| > 1 {
      assert [d] + parts[0] + ([c] + Join(parts[1..], c)) == [d] + (parts[0] + ([c] + Join(parts[1..], c)));
    }
  }

  /** A part without the separator, the separator, and the rest. */
  lemma {:induction false} SplitFirst(part: string, rest: string, c: char)
    requires Without(part, c)
    ensures Split(part + ([c] + rest), c) == [part] + Split(rest, c)
    decreases |part|
  {
    var s := part + ([c] + rest);
    if part == [] {
      assert s == [c] + rest;
      assert s[1..] == rest;
    } else {
      SplitFirst(part[1..], rest, c);
      assert s[0] == part[0] && s[1..] == part[1..] + ([c] + rest);
      var parts := [part[1..]] + Split(rest, c);
      assert parts[0] == part[1..] && parts[1..] == Split(rest, c);
      assert [part[0]] + part[1..] == part;
    }
  }

  lemma {:induction false} SplitLast(part: string, c: char)
    requires Without(part, c)
    ensures Split(part, c) == [part]
    decreases |part|
  {
    if part != [] {
      SplitLast(part[1..], c);
      assert [part[0]] + part[1..] == part;
    }
  }

  lemma {:induction false} SplitJoin(parts: seq<string>, c: char)
    requires |parts| >= 1 && forall k :: 0 <= k < |parts| ==> Without(parts[k], c)
    ensures Split(Join(parts, c), c) == parts
    decreases |parts|
  {
    hide Split, Without;
    if |parts| == 1 {
      SplitLast(parts[0], c);
    } else {
      SplitJoin(parts[1..], c);
      SplitFirst(parts[0], Join(parts[1..], c), c);
      assert parts == [parts[0]] + parts[1..];
    }
  }

  /** `split_once(c)`: around the first `c`. */
  function SplitOnce(s: string, c: char): (r: Option<(string, string)>)
    ensures r.Some? ==> Without(r.value.0, c) && s == r.value.0 + ([c] + r.value.1)
    ensures r.None? ==> Without(s, c)
  {
    if s == [] then None
    else if s[0] == c then Some(([], s[1..]))
    else
      match SplitOnce(s[1..], c)
      case None => None
      case Some((a, b)) => Some(([s[0]] + a, b))
  }

  lemma {:induction false} SplitOnceAt(a: string, b: string, c: char)
    requires Without(a, c)
    ensures SplitOnce(a + ([c] + b), c) == Some((a, b))
    decreases |a|
  {
    var s := a + ([c] + b);
    if a == [] {
      assert s == [c] + b && s[1..] == b;
    } else {
      SplitOnceAt(a[1..], b, c);
      assert s[0] == a[0] && s[1..] == a[1..] + ([c] + b);
      assert [a[0]] + a[1..] == a;
    }
  }
}
