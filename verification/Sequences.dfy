/** Lists: the stable sort by an integer key that `sort_by_key` performs, and the
    replacement of every element by a list of others. */
module Sequences {

  lemma Assoc<T>(a: seq<T>, b: seq<T>, c: seq<T>)
    ensures (a + b) + c == a + (b + c)
  {
  }

  lemma SliceOfFront<T>(a: seq<T>, b: seq<T>, i: nat, j: nat)
    requires i <= j <= |a|
    ensures (a + b)[i..j] == a[i..j]
  {
  }

  lemma SliceOfBack<T>(a: seq<T>, b: seq<T>, n: nat, m: nat)
    requires |a| == n && n + |b| == m
    ensures (a + b)[n..m] == b
  {
  }

  lemma InitLast<T>(s: seq<T>)
    requires s != []
    ensures s == s[..|s| - 1] + [s[|s| - 1]]
  {
  }

  // ----- stable sorting -----

  predicate Sorted<T>(s: seq<T>, key: T -> int) {
    forall i, j :: 0 <= i < j < |s| ==> key(s[i]) <= key(s[j])
  }

  /** Puts `x` behind the last element whose key does not exceed its own. */
  function Insert<T>(s: seq<T>, x: T, key: T -> int): (r: seq<T>)
    ensures multiset(r) == multiset(s) + multiset{x}
    ensures |r| == |s| + 1
  {
    if s == [] || key(s[|s| - 1]) <= key(x) then s + [x]
    else
      InitLast(s);
      Insert(s[..|s| - 1], x, key) + [s[|s| - 1]]
  }

  function Sort<T>(s: seq<T>, key: T -> int): (r: seq<T>)
    ensures multiset(r) == multiset(s)
    ensures |r| == |s|
  {
    if s == [] then []
    else
      InitLast(s);
      Insert(Sort(s[..|s| - 1], key), s[|s| - 1], key)
  }

  lemma InsertMembers<T>(s: seq<T>, x: T, key: T -> int, y: T)
    ensures y in Insert(s, x, key) <==> y in s || y == x
  {
    hide Insert;
    assert y in Insert(s, x, key) <==> y in multiset(Insert(s, x, key));
  }

  lemma SortMembers<T>(s: seq<T>, key: T -> int, y: T)
    ensures y in Sort(s, key) <==> y in s
  {
    hide Sort;
    assert y in Sort(s, key) <==> y in multiset(Sort(s, key));
    assert y in s <==> y in multiset(s);
  }

  lemma SortedAppend<T>(s: seq<T>, x: T, key: T -> int)
    requires Sorted(s, key) && forall y :: y in s ==> key(y) <= key(x)
    ensures Sorted(s + [x], key)
  {
  }

  lemma {:induction false} InsertSorted<T>(s: seq<T>, x: T, key: T -> int)
    requires Sorted(s, key)
    ensures Sorted(Insert(s, x, key), key)
  {
    if s == [] {
    } else if key(s[|s| - 1]) <= key(x) {
      assert forall y :: y in s ==> key(y) <= key(s[|s| - 1]);
      SortedAppend(s, x, key);
    } else {
      var init, last := s[..|s| - 1], s[|s| - 1];
      InsertSorted(init, x, key);
      var r := Insert(init, x, key);
      forall y | y in r
        ensures key(y) <= key(last)
      {
        InsertMembers(init, x, key, y);
      }
      SortedAppend(r, last, key);
    }
  }

  lemma {:induction false} SortSorted<T>(s: seq<T>, key: T -> int)
    ensures Sorted(Sort(s, key), key)
  {
    if s != [] {
      SortSorted(s[..|s| - 1], key);
      InsertSorted(Sort(s[..|s| - 1], key), s[|s| - 1], key);
    }
  }

  lemma InsertLast<T>(s: seq<T>, x: T, key: T -> int)
    requires forall y :: y in s ==> key(y) <= key(x)
    ensures Insert(s, x, key) == s + [x]
  {
    assert s != [] ==> s[|s| - 1] in s;
  }

  lemma {:induction false} SortOfSorted<T>(s: seq<T>, key: T -> int)
    requires Sorted(s, key)
    ensures Sort(s, key) == s
  {
    if s != [] {
      var init, last := s[..|s| - 1], s[|s| - 1];
      SortOfSorted(init, key);
      assert Sort(s, key) == Insert(init, last, key);
      hide Sort, Insert;
      assert forall y :: y in init ==> key(y) <= key(last);
      InsertLast(init, last, key);
      InitLast(s);
    }
  }

  /** The elements with key `k`, in order. */
  function Bucket<T>(s: seq<T>, key: T -> int, k: int): seq<T> {
    if s == [] then []
    else Bucket(s[..|s| - 1], key, k) + (if key(s[|s| - 1]) == k then [s[|s| - 1]] else [])
  }

  lemma BucketAppend<T>(s: seq<T>, x: T, key: T -> int, k: int)
    ensures Bucket(s + [x], key, k) == Bucket(s, key, k) + (if key(x) == k then [x] else [])
  {
    assert (s + [x])[..|s|] == s;
  }

  lemma {:induction false} InsertBucket<T>(s: seq<T>, x: T, key: T -> int, k: int)
    ensures Bucket(Insert(s, x, key), key, k) == Bucket(s + [x], key, k)
  {
    if s != [] && key(s[|s| - 1]) > key(x) {
      var init, last := s[..|s| - 1], s[|s| - 1];
      InsertBucket(init, x, key, k);
      InitLast(s);
      assert Insert(s, x, key) == Insert(init, x, key) + [last];
      hide Insert, Bucket;
      BucketAppend(Insert(init, x, key), last, key, k);
      BucketAppend(init, x, key, k);
      BucketAppend(init, last, key, k);
      BucketAppend(s, x, key, k);
    }
  }

  /** Stability: elements with equal keys keep their relative order. */
  lemma {:induction false} SortStable<T>(s: seq<T>, key: T -> int, k: int)
    ensures Bucket(Sort(s, key), key, k) == Bucket(s, key, k)
  {
    if s != [] {
      var init, last := s[..|s| - 1], s[|s| - 1];
      SortStable(init, key, k);
      InsertBucket(Sort(init, key), last, key, k);
      BucketAppend(Sort(init, key), last, key, k);
    }
  }

  lemma {:induction false} BucketOfDistinct<T>(s: seq<T>, key: T -> int, k: int)
    requires forall i, j :: 0 <= i < j < |s| ==> key(s[i]) != key(s[j])
    ensures |Bucket(s, key, k)| <= 1
    ensures (forall x :: x in s ==> key(x) != k) ==> Bucket(s, key, k) == []
  {
    if s != [] {
      var init, last := s[..|s| - 1], s[|s| - 1];
      BucketOfDistinct(init, key, k);
      if key(last) == k {
        forall x | x in init
          ensures key(x) != k
        {
          var i :| 0 <= i < |init| && init[i] == x;
          assert s[i] == x;
        }
      }
      InitLast(s);
    }
  }

  lemma {:induction false} BucketOfTwins<T>(s: seq<T>, key: T -> int, i: nat, j: nat)
    requires i <= j < |s| && key(s[i]) == key(s[j])
    ensures |Bucket(s, key, key(s[j]))| >= if i == j then 1 else 2
  {
    var init := s[..|s| - 1];
    if j < |init| {
      BucketOfTwins(init, key, i, j);
    } else if i < j {
      BucketOfTwins(init, key, i, i);
    }
  }

  /** Keys that differ after sorting differed before. */
  lemma DistinctBySort<T>(s: seq<T>, key: T -> int)
    requires var t := Sort(s, key); forall i, j :: 0 <= i < j < |t| ==> key(t[i]) != key(t[j])
    ensures forall i, j :: 0 <= i < j < |s| ==> key(s[i]) != key(s[j])
  {
    hide Sort, Bucket;
    forall i, j | 0 <= i < j < |s|
      ensures key(s[i]) != key(s[j])
    {
      SortStable(s, key, key(s[j]));
      BucketOfDistinct(Sort(s, key), key, key(s[j]));
      if key(s[i]) == key(s[j]) {
        BucketOfTwins(s, key, i, j);
      }
    }
  }

  /** Keys that differed before sorting differ after. */
  lemma DistinctAfterSort<T>(s: seq<T>, key: T -> int)
    requires forall i, j :: 0 <= i < j < |s| ==> key(s[i]) != key(s[j])
    ensures var t := Sort(s, key); forall i, j :: 0 <= i < j < |t| ==> key(t[i]) != key(t[j])
  {
    hide Sort, Bucket;
    var t := Sort(s, key);
    forall i, j | 0 <= i < j < |t|
      ensures key(t[i]) != key(t[j])
    {
      SortStable(s, key, key(t[j]));
      BucketOfDistinct(s, key, key(t[j]));
      if key(t[i]) == key(t[j]) {
        BucketOfTwins(t, key, i, j);
      }
    }
  }

  lemma InsertBeforeOne<T>(a: seq<T>, y: T, x: T, key: T -> int)
    requires key(y) > key(x)
    ensures Insert(a + [y], x, key) == Insert(a, x, key) + [y]
  {
    assert (a + [y])[..|a|] == a;
  }

  /** Elements with larger keys at the end stay behind the inserted one. */
  lemma {:induction false} InsertBefore<T>(a: seq<T>, b: seq<T>, x: T, key: T -> int)
    requires forall y :: y in b ==> key(y) > key(x)
    ensures Insert(a + b, x, key) == Insert(a, x, key) + b
  {
    hide Insert;
    if b == [] {
      assert a + b == a;
    } else {
      var init, last := b[..|b| - 1], b[|b| - 1];
      InsertBefore(a, init, x, key);
      InitLast(b);
      Assoc(a, init, [last]);
      InsertBeforeOne(a + init, last, x, key);
      Assoc(Insert(a, x, key), init, [last]);
    }
  }

  lemma InsertBetween<T>(a: seq<T>, b: seq<T>, x: T, key: T -> int)
    requires forall y :: y in a ==> key(y) <= key(x)
    requires forall y :: y in b ==> key(y) > key(x)
    ensures Insert(a + b, x, key) == a + [x] + b
  {
    hide Insert;
    InsertBefore(a, b, x, key);
    InsertLast(a, x, key);
  }

  /** Inserting two elements with different keys commutes. */
  lemma InsertCommutes<T>(s: seq<T>, x: T, y: T, key: T -> int)
    requires key(x) != key(y)
    ensures Insert(Insert(s, x, key), y, key) == Insert(Insert(s, y, key), x, key)
  {
    if key(x) > key(y) {
      InsertOrdered(s, y, x, key);
    } else {
      InsertOrdered(s, x, y, key);
    }
  }

  lemma {:induction false} InsertOrdered<T>(s: seq<T>, x: T, y: T, key: T -> int)
    requires key(x) < key(y)
    ensures Insert(Insert(s, x, key), y, key) == Insert(Insert(s, y, key), x, key)
  {
    if s == [] || key(s[|s| - 1]) <= key(y) {
      assert Insert(s, y, key) == s + [y];
      InsertBeforeOne(s, y, x, key);
      assert Insert(Insert(s, x, key), y, key) == Insert(s, x, key) + [y];
    } else {
      var init, last := s[..|s| - 1], s[|s| - 1];
      InsertOrdered(init, x, y, key);
      hide Insert;
      InitLast(s);
      InsertBeforeOne(init, last, x, key);
      InsertBeforeOne(init, last, y, key);
      InsertBeforeOne(Insert(init, x, key), last, y, key);
      InsertBeforeOne(Insert(init, y, key), last, x, key);
    }
  }

  // ----- replacing each element by a list -----

  function FlatMap<S, T>(s: seq<S>, f: S -> seq<T>): seq<T> {
    if s == [] then [] else FlatMap(s[..|s| - 1], f) + f(s[|s| - 1])
  }

  lemma FlatMapAppend<S, T>(a: seq<S>, x: S, f: S -> seq<T>)
    ensures FlatMap(a + [x], f) == FlatMap(a, f) + f(x)
  {
    assert (a + [x])[..|a|] == a;
  }

  lemma FlatMapOne<S, T>(x: S, f: S -> seq<T>)
    ensures FlatMap([x], f) == f(x)
  {
    assert [x][..0] == [];
    assert FlatMap([x], f) == FlatMap([], f) + f(x);
  }

  lemma {:induction false} FlatMapSplit<S, T>(a: seq<S>, b: seq<S>, f: S -> seq<T>)
    ensures FlatMap(a + b, f) == FlatMap(a, f) + FlatMap(b, f)
  {
    if b == [] {
      assert a + b == a;
      assert FlatMap(a, f) + FlatMap(b, f) == FlatMap(a, f);
    } else {
      hide FlatMap;
      var init, last := b[..|b| - 1], b[|b| - 1];
      FlatMapSplit(a, init, f);
      InitLast(b);
      Assoc(a, init, [last]);
      FlatMapAppend(init, last, f);
      FlatMapAppend(a + init, last, f);
      Assoc(FlatMap(a, f), FlatMap(init, f), f(last));
    }
  }

  /** Two element-wise replacements that commute on every element commute on the list. */
  lemma {:induction false} FlatMapCommutes<T>(s: seq<T>, f: T -> seq<T>, g: T -> seq<T>)
    requires forall x :: x in s ==> FlatMap(f(x), g) == FlatMap(g(x), f)
    ensures FlatMap(FlatMap(s, f), g) == FlatMap(FlatMap(s, g), f)
  {
    if s != [] {
      hide FlatMap;
      var init, last := s[..|s| - 1], s[|s| - 1];
      FlatMapCommutes(init, f, g);
      InitLast(s);
      FlatMapAppend(init, last, f);
      FlatMapAppend(init, last, g);
      FlatMapSplit(FlatMap(init, f), f(last), g);
      FlatMapSplit(FlatMap(init, g), g(last), f);
    }
  }

  lemma FlatMapPastLast<T>(init: seq<T>, r: T, x: T, f: T -> seq<T>, key: T -> int)
    requires forall y :: y in f(r) ==> key(y) > key(x)
    requires FlatMap(Insert(init, x, key), f) == Insert(FlatMap(init, f), x, key)
    ensures FlatMap(Insert(init, x, key) + [r], f) == Insert(FlatMap(init + [r], f), x, key)
  {
    hide FlatMap, Insert;
    FlatMapAppend(Insert(init, x, key), r, f);
    FlatMapAppend(init, r, f);
    InsertBefore(FlatMap(init, f), f(r), x, key);
  }

  /** Every element is replaced by exactly `n` others. */
  ghost predicate Fixed<S(!new), T>(f: S -> seq<T>, n: nat) {
    forall x: S :: |f(x)| == n
  }

  lemma {:induction false} FlatMapLength<S(!new), T>(s: seq<S>, f: S -> seq<T>, n: nat)
    requires Fixed(f, n)
    ensures |FlatMap(s, f)| == n * |s|
  {
    if s != [] {
      FlatMapLength(s[..|s| - 1], f, n);
      assert n * |s| == n * (|s| - 1) + n;
    }
  }

  /** Fixed-size records sit at multiples of their size. */
  lemma {:induction false} FlatMapAt<S(!new), T>(s: seq<S>, f: S -> seq<T>, n: nat, i: nat)
    requires Fixed(f, n) && i < |s|
    ensures 0 <= n * i <= n * i + n <= |FlatMap(s, f)|
    ensures FlatMap(s, f)[n * i..n * i + n] == f(s[i])
  {
    hide FlatMap;
    var a, b := s[..i + 1], s[i + 1..];
    assert s == a + b;
    FlatMapSplit(a, b, f);
    FlatMapLength(s[..i], f, n);
    assert a == s[..i] + [s[i]];
    FlatMapAppend(s[..i], s[i], f);
  }

  // ----- mapping -----

  function Map<S, T>(s: seq<S>, f: S -> T): (r: seq<T>)
    ensures |r| == |s|
    ensures forall i :: 0 <= i < |s| ==> r[i] == f(s[i])
  {
    if s == [] then [] else Map(s[..|s| - 1], f) + [f(s[|s| - 1])]
  }

  lemma MapAppend<S, T>(a: seq<S>, x: S, f: S -> T)
    ensures Map(a + [x], f) == Map(a, f) + [f(x)]
  {
    assert (a + [x])[..|a|] == a;
  }

  /** `f` keeps the order of the keys. */
  ghost predicate Monotone<S(!new), T>(f: S -> T, key: S -> int, key': T -> int) {
    forall x: S, y: S :: key(x) <= key(y) <==> key'(f(x)) <= key'(f(y))
  }

  lemma {:induction false} MapInsert<S(!new), T>(s: seq<S>, x: S, f: S -> T, key: S -> int, key': T -> int)
    requires Monotone(f, key, key')
    ensures Map(Insert(s, x, key), f) == Insert(Map(s, f), f(x), key')
  {
    if s == [] || key(s[|s| - 1]) <= key(x) {
      MapAppend(s, x, f);
    } else {
      var init, last := s[..|s| - 1], s[|s| - 1];
      MapInsert(init, x, f, key, key');
      InitLast(s);
      MapAppend(init, last, f);
      MapAppend(Insert(init, x, key), last, f);
      InsertBeforeOne(Map(init, f), f(last), f(x), key');
    }
  }

  lemma {:induction false} MapSort<S(!new), T>(s: seq<S>, f: S -> T, key: S -> int, key': T -> int)
    requires Monotone(f, key, key')
    ensures Map(Sort(s, key), f) == Sort(Map(s, f), key')
  {
    if s != [] {
      var init, last := s[..|s| - 1], s[|s| - 1];
      MapSort(init, f, key, key');
      MapInsert(Sort(init, key), last, f, key, key');
      InitLast(s);
      MapAppend(init, last, f);
      assert Map(s, f)[..|s| - 1] == Map(init, f);
    }
  }
}
