/** Bytes, results and little-endian integers shared by every measurement. */
module Common {

  type Byte = b: int | 0 <= b < 256

  type ByteString = seq<Byte>

  const U16 := 0x1_0000
  const U32 := 0x1_0000_0000
  const U64 := 0x1_0000_0000_0000_0000

  type Word32 = v: int | 0 <= v < 0x1_0000_0000
  type Word64 = v: int | 0 <= v < 0x1_0000_0000_0000_0000

  datatype Option<+T> = None | Some(value: T)

  /** The source's `Result`; which message an error carries is not modelled. */
  datatype Result<+T> = Ok(value: T) | Err {

    predicate IsFailure() {
      Err?
    }

    function PropagateFailure<U>(): Result<U>
      requires Err?
    {
      Err
    }

    function Extract(): T
      requires Ok?
    {
      value
    }
  }

  /** SHA-384 and SHA-256 are arbitrary functions of their output length: every
      theorem quantifies over them, and none assumes them injective. */
  type Bytes48 = b: ByteString | |b| == 48 witness Zeros(48)

  type Sha384 = ByteString -> Bytes48

  type Bytes32 = b: ByteString | |b| == 32 witness Zeros(32)

  type Sha256 = ByteString -> Bytes32

  /** Two different messages with one digest. */
  ghost predicate Collision<D>(h: ByteString -> D, a: ByteString, b: ByteString) {
    a != b && h(a) == h(b)
  }

  function Zeros(n: nat): (r: ByteString)
    ensures |r| == n
  {
    seq(n, _ => 0)
  }

  /** Overwrites `s[at..at + |v|]` with `v`. */
  function Splice(s: ByteString, at: nat, v: ByteString): (r: ByteString)
    requires at + |v| <= |s|
    ensures |r| == |s|
    ensures r[at..at + |v|] == v
    ensures forall i :: 0 <= i < |s| && !(at <= i < at + |v|) ==> r[i] == s[i]
  {
    s[..at] + v + s[at + |v|..]
  }

  function Pow256(n: nat): (r: nat)
    ensures r >= 1
  {
    if n == 0 then 1 else 256 * Pow256(n - 1)
  }

  lemma WordSizes()
    ensures Pow256(2) == U16 && Pow256(4) == U32 && Pow256(8) == U64
  {
    assert Pow256(1) == 256;
    assert Pow256(2) == 0x1_0000;
    assert Pow256(3) == 0x100_0000;
    assert Pow256(4) == 0x1_0000_0000;
    assert Pow256(5) == 0x100_0000_0000;
    assert Pow256(6) == 0x1_0000_0000_0000;
    assert Pow256(7) == 0x100_0000_0000_0000;
  }

  /** The low `n` bytes of `v`, least significant first (`to_le_bytes`). */
  function Le(v: nat, n: nat): (r: ByteString)
    ensures |r| == n
    decreases n
  {
    if n == 0 then [] else [v % 256] + Le(v / 256, n - 1)
  }

  /** `from_le_bytes`. */
  function FromLe(b: ByteString): (r: nat) {
    if b == [] then 0 else b[0] + 256 * FromLe(b[1..])
  }

  lemma {:induction false} FromLeBound(b: ByteString)
    ensures FromLe(b) < Pow256(|b|)
  {
    if b != [] {
      FromLeBound(b[1..]);
    }
  }

  lemma {:induction false} LeRoundTrip(v: nat, n: nat)
    requires v < Pow256(n)
    ensures FromLe(Le(v, n)) == v
    decreases n
  {
    if n > 0 {
      LeRoundTrip(v / 256, n - 1);
      assert Le(v, n)[1..] == Le(v / 256, n - 1);
    }
  }

  /** Small numbers, in two and four bytes. */
  lemma LeSmall(v: Byte)
    ensures Le(v, 2) == [v, 0] && Le(v, 4) == [v, 0, 0, 0]
  {
    hide Le;
    LeZero();
    LeNext(v, 0, 1);
    LeNext(v, 0, 3);
  }

  lemma LeZero()
    ensures Le(0, 1) == [0] && Le(0, 3) == [0, 0, 0]
  {
    hide Le;
    LeNothing();
    LeNext(0, 0, 0);
    LeNext(0, 0, 1);
    LeNext(0, 0, 2);
  }

  lemma LeNothing()
    ensures Le(0, 0) == []
  {
  }

  /** Byte `i` is the `i`-th digit of the number to the base 256. */
  lemma {:induction false} LeAt(v: nat, n: nat, i: nat)
    requires i < n
    ensures Le(v, n)[i] == v / Pow256(i) % 256
    decreases n
  {
    if i > 0 {
      LeAt(v / 256, n - 1, i - 1);
      DivTwice(v, Pow256(i - 1));
    }
  }

  lemma DivTwice(v: nat, p: nat)
    requires p >= 1
    ensures v / 256 / p == v / (256 * p)
  {
    var q, r := v / 256 / p, v / 256 % p;
    var s := v % 256;
    assert v / 256 == p * q + r;
    assert v == 256 * (p * q + r) + s;
    assert v == (256 * p) * q + (256 * r + s);
    assert 0 <= 256 * r + s < 256 * p;
    DivIs(v, 256 * p, q, 256 * r + s);
  }

  lemma DivIs(v: nat, d: nat, q: nat, r: nat)
    requires v == d * q + r && r < d
    ensures v / d == q
  {
    var k := v / d - q;
    assert d * k == r - v % d by {
      assert d * k == d * (v / d) - d * q;
    }
    Multiple(d, k);
  }

  lemma Multiple(d: int, k: int)
    requires d >= 0
    ensures k >= 1 ==> d * k >= d
    ensures k <= -1 ==> d * k <= -d
  {
    if k >= 1 {
      assert d * k == d * (k - 1) + d;
    } else if k <= -1 {
      assert d * k == d * (k + 1) - d;
    }
  }

  lemma LeNext(x: Byte, v: nat, n: nat)
    ensures Le(x + 256 * v, n + 1) == [x] + Le(v, n)
  {
    var w := x + 256 * v;
    assert w % 256 == x && w / 256 == v;
  }

  lemma {:induction false} FromLeRoundTrip(b: ByteString)
    ensures Le(FromLe(b), |b|) == b
  {
    if b != [] {
      hide Le;
      FromLeRoundTrip(b[1..]);
      LeNext(b[0], FromLe(b[1..]), |b| - 1);
      assert b == [b[0]] + b[1..];
    }
  }

  lemma LeInjective(v: nat, w: nat, n: nat)
    requires v < Pow256(n) && w < Pow256(n)
    requires Le(v, n) == Le(w, n)
    ensures v == w
  {
    LeRoundTrip(v, n);
    LeRoundTrip(w, n);
  }

  /** Concatenation of a list of byte strings, in order. */
  function Concat(parts: seq<ByteString>): ByteString {
    if parts == [] then [] else Concat(parts[..|parts| - 1]) + parts[|parts| - 1]
  }

  lemma ConcatAppend(a: seq<ByteString>, x: ByteString)
    ensures Concat(a + [x]) == Concat(a) + x
  {
    assert (a + [x])[..|a|] == a;
  }

  lemma {:induction false} ConcatSplit(a: seq<ByteString>, b: seq<ByteString>)
    ensures Concat(a + b) == Concat(a) + Concat(b)
  {
    if b == [] {
      assert a + b == a;
    } else {
      var init, last := b[..|b| - 1], b[|b| - 1];
      ConcatSplit(a, init);
      hide Concat;
      ConcatAppend(a + init, last);
      ConcatAppend(init, last);
      assert b == init + [last] && a + b == a + init + [last];
      assert Concat(a) + Concat(init) + last == Concat(a) + (Concat(init) + last);
    }
  }

  lemma SameTail(a: ByteString, u: ByteString, b: ByteString, v: ByteString)
    requires a + u == b + v && |u| == |v|
    ensures a == b && u == v
  {
    assert |a| == |b|;
    assert a == (a + u)[..|a|] && b == (b + v)[..|b|];
    assert u == (a + u)[|a|..] && v == (b + v)[|b|..];
  }
}
