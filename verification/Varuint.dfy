/** Unsigned LEB128 varints (section 7.6 of DWARF 5) as the TD HOB witness uses them. */
module Varuint {
  import opened Common
  import opened Sequences

  /** A decoded value and the input behind it. */
  datatype Cursor<+T> = Cursor(value: T, rest: ByteString)

  function Encode(v: nat): (b: ByteString)
    ensures |b| >= 1
  {
    if v < 128 then [v] else [v % 128 + 128] + Encode(v / 128)
  }

  method PutVaruint(value: nat, out: ByteString) returns (r: ByteString)
    ensures r == out + Encode(value)
  {
    r := out;
    var v: int := value;
    while true
      invariant v >= 0
      invariant r + Encode(v) == out + Encode(value)
      decreases v
    {
      var byte := v % 128;
      ghost var v0 := v;
      v := v / 128;
      if v != 0 {
        byte := byte + 128;
        assert r + ([byte] + Encode(v)) == r + [byte] + Encode(v);
      }
      r := r + [byte];
      if v == 0 {
        return;
      }
    }
  }

  /** Reads from the `k`-th group on, in units of that group. The tenth group holds one bit. */
  function Groups(input: ByteString, k: nat): Result<Cursor<nat>>
    requires k <= 9
    decreases 9 - k
  {
    if input == [] || (k == 9 && input[0] % 128 >= 2) then Err
    else if input[0] < 128 then Ok(Cursor(input[0], input[1..]))
    else if k == 9 then Err
    else
      var c :- Groups(input[1..], k + 1);
      Ok(Cursor(input[0] % 128 + 128 * c.value, c.rest))
  }

  /** What the groups from `k` on can hold. */
  function Bound(k: nat): nat
    requires k <= 9
    decreases 9 - k
  {
    if k == 9 then 2 else 128 * Bound(k + 1)
  }

  lemma BoundIsU64()
    ensures Bound(0) == U64
  {
    assert Bound(8) == 256;
    assert Bound(7) == 128 * 256;
    assert Bound(6) == 128 * 128 * 256;
    assert Bound(5) == 0x2000_0000;
    assert Bound(4) == 0x10_0000_0000;
    assert Bound(3) == 0x800_0000_0000;
    assert Bound(2) == 0x4_0000_0000_0000;
    assert Bound(1) == 0x200_0000_0000_0000;
  }

  lemma {:induction false} GroupsBound(input: ByteString, k: nat)
    requires k <= 9
    ensures Groups(input, k).Ok? ==>
              Groups(input, k).value.value < Bound(k) && |Groups(input, k).value.rest| < |input|
    decreases 9 - k
  {
    if input != [] && input[0] >= 128 && k < 9 {
      GroupsBound(input[1..], k + 1);
    } else if k < 9 {
      BoundAtLeast(k);
    }
  }

  lemma {:induction false} BoundAtLeast(k: nat)
    requires k < 9
    ensures Bound(k) >= 256
    decreases 9 - k
  {
    if k < 8 {
      BoundAtLeast(k + 1);
    }
  }

  function Decode(input: ByteString): (r: Result<Cursor<Word64>>)
    ensures r.Ok? ==> |r.value.rest| < |input|
  {
    GroupsBound(input, 0);
    BoundIsU64();
    match Groups(input, 0)
    case Err => Err
    case Ok(c) => Ok(Cursor(c.value, c.rest))
  }

  /** `2^n`, the factor a left shift by `n` multiplies with. */
  function Pow2(n: nat): (r: nat)
    ensures r >= 1
  {
    if n == 0 then 1 else 2 * Pow2(n - 1)
  }

  lemma Pow2Seven(n: nat)
    ensures Pow2(n + 7) == 128 * Pow2(n)
  {
    assert Pow2(n + 7) == 2 * Pow2(n + 6) == 4 * Pow2(n + 5) == 8 * Pow2(n + 4);
    assert Pow2(n + 4) == 2 * Pow2(n + 3) == 4 * Pow2(n + 2) == 8 * Pow2(n + 1);
  }

  /** The final value, once the groups still to come are shifted behind `value`. */
  function Combine(value: nat, scale: nat, r: Result<Cursor<nat>>): Result<Cursor<nat>> {
    match r
    case Err => Err
    case Ok(c) => Ok(Cursor(value + scale * c.value, c.rest))
  }

  lemma CombineStep(value: nat, scale: nat, low: nat, r: Result<Cursor<nat>>)
    requires r.Ok?
    ensures Combine(value, scale, Ok(Cursor(low + 128 * r.value.value, r.value.rest)))
            == Combine(value + low * scale, 128 * scale, r)
  {
    var c := r.value.value;
    assert scale * (low + 128 * c) == low * scale + 128 * scale * c;
  }

  /** The shifting loop; the bits it or-s in never overlap, so the sum is the or. */
  method ReadVaruint(input: ByteString) returns (r: Result<Cursor<Word64>>)
    ensures r == Decode(input)
  {
    hide Groups, Pow2, Combine;
    var value: nat, shift: nat, rest := 0, 0, input;
    assert Pow2(0) == 1 && Combine(0, 1, Groups(input, 0)) == Groups(input, 0) by {
      CombineStart(Groups(input, 0));
    }
    ghost var k := 0;
    GroupsBound(input, 0);
    BoundIsU64();
    while true
      invariant k <= 9 && shift == 7 * k
      invariant Combine(value, Pow2(shift), Groups(rest, k)) == Groups(input, 0)
      decreases 9 - k
    {
      GroupsStep(rest, k);
      if rest == [] {
        CombineErr(value, Pow2(shift));
        return Err;
      }
      var byte := rest[0];
      if shift == 63 && byte % 128 >= 2 {
        CombineErr(value, Pow2(shift));
        return Err;
      }
      if byte < 128 {
        CombineLast(value, Pow2(shift), byte, rest[1..]);
        return Ok(Cursor(value + byte * Pow2(shift), rest[1..]));
      }
      if shift + 7 >= 64 {
        CombineErr(value, Pow2(shift));
        return Err;
      }
      if Groups(rest[1..], k + 1).Ok? {
        CombineStep(value, Pow2(shift), byte % 128, Groups(rest[1..], k + 1));
      } else {
        CombineErr(value, Pow2(shift));
        CombineErr(value + byte % 128 * Pow2(shift), 128 * Pow2(shift));
      }
      Pow2Seven(shift);
      value := value + byte % 128 * Pow2(shift);
      rest := rest[1..];
      shift := shift + 7;
      k := k + 1;
    }
  }

  lemma CombineStart(r: Result<Cursor<nat>>)
    ensures Pow2(0) == 1 && Combine(0, 1, r) == r
  {
  }

  lemma CombineErr(value: nat, scale: nat)
    ensures Combine(value, scale, Err) == Err
  {
  }

  lemma CombineLast(value: nat, scale: nat, byte: Byte, rest: ByteString)
    ensures Combine(value, scale, Ok(Cursor(byte, rest))) == Ok(Cursor(value + byte * scale, rest))
  {
    assert byte * scale == scale * byte;
  }

  lemma GroupsStep(input: ByteString, k: nat)
    requires k <= 9
    ensures input == [] || (k == 9 && input[0] % 128 >= 2) ==> Groups(input, k) == Err
    ensures input != [] && !(k == 9 && input[0] % 128 >= 2) && input[0] < 128 ==>
              Groups(input, k) == Ok(Cursor(input[0], input[1..]))
    ensures input != [] && input[0] >= 128 && k == 9 ==> Groups(input, k) == Err
    ensures input != [] && input[0] >= 128 && k < 9 ==>
              var c := Groups(input[1..], k + 1);
              if c.Ok? then Groups(input, k) == Ok(Cursor(input[0] % 128 + 128 * c.value.value, c.value.rest))
              else Groups(input, k) == Err
  {
  }

  lemma {:induction false} EncodeReadsBack(v: nat, rest: ByteString, k: nat)
    requires k <= 9 && v < Bound(k)
    ensures Groups(Encode(v) + rest, k) == Ok(Cursor(v, rest))
    decreases 9 - k
  {
    hide Groups;
    var b := Encode(v) + rest;
    GroupsStep(b, k);
    if v < 128 {
      assert b == [v] + rest;
    } else {
      EncodeReadsBack(v / 128, rest, k + 1);
      hide Encode, Bound;
      Assoc([v % 128 + 128], Encode(v / 128), rest);
      assert b[1..] == Encode(v / 128) + rest;
    }
  }

  /** Every 64-bit value survives the round trip, whatever follows it. */
  lemma RoundTrip(v: Word64, rest: ByteString)
    ensures Decode(Encode(v) + rest) == Ok(Cursor(v, rest))
  {
    BoundIsU64();
    EncodeReadsBack(v, rest, 0);
  }

  // ----- the format -----

  /** Seven bits a byte, the low group first. */
  function Weight(groups: ByteString): nat {
    if groups == [] then 0 else groups[0] % 128 + 128 * Weight(groups[1..])
  }

  /** The first `n` bytes are one number: the high bit marks every byte but the last. */
  predicate Number(input: ByteString, n: nat) {
    1 <= n <= |input| && input[n - 1] < 128 && forall i :: 0 <= i < n - 1 ==> input[i] >= 128
  }

  lemma NumberRest(input: ByteString, n: nat)
    requires Number(input, n) && n > 1
    ensures Number(input[1..], n - 1) && input[0] >= 128 && input[1..][n - 1..] == input[n..]
    ensures Weight(input[..n]) == input[0] % 128 + 128 * Weight(input[1..][..n - 1])
  {
    hide Weight;
    assert input[..n][1..] == input[1..][..n - 1];
    WeightOf(input[..n]);
  }

  lemma WeightOf(groups: ByteString)
    requires groups != []
    ensures Weight(groups) == groups[0] % 128 + 128 * Weight(groups[1..])
    ensures |groups| == 1 ==> Weight(groups) == groups[0] % 128
  {
  }

  lemma {:induction false} GroupsExactly(input: ByteString, k: nat, n: nat)
    requires k <= 9 && Number(input, n)
    ensures Groups(input, k)
            == if n + k <= 10 && Weight(input[..n]) < Bound(k) then Ok(Cursor(Weight(input[..n]), input[n..])) else Err
    decreases n
  {
    hide Groups, Weight;
    GroupsStep(input, k);
    if n == 1 {
      WeightOf(input[..1]);
      if k < 9 {
        BoundAtLeast(k);
      }
    } else {
      NumberRest(input, n);
      if k < 9 {
        hide Number;
        GroupsExactly(input[1..], k + 1, n - 1);
      }
    }
  }

  lemma {:induction false} Endless(input: ByteString, k: nat)
    requires k <= 9 && forall i :: 0 <= i < |input| ==> input[i] >= 128
    ensures Groups(input, k) == Err
    decreases 9 - k
  {
    hide Groups;
    GroupsStep(input, k);
    if input != [] && k < 9 {
      Endless(input[1..], k + 1);
    }
  }

  /** A number of at most ten bytes and 64 bits is what it weighs, padded or not; no other input is read. */
  lemma DecodesExactly(input: ByteString, n: nat)
    requires Number(input, n)
    ensures Decode(input)
            == if n <= 10 && Weight(input[..n]) < 0x1_0000_0000_0000_0000 then Ok(Cursor(Weight(input[..n]), input[n..]))
               else Err
  {
    hide Groups, Weight, Number;
    BoundIsU64();
    GroupsExactly(input, 0, n);
    GroupsBound(input, 0);
  }

  lemma DecodesNothingElse(input: ByteString)
    requires forall n: nat :: !Number(input, n)
    ensures Decode(input) == Err
  {
    hide Groups;
    AllMarked(input, |input|);
    Endless(input, 0);
  }

  lemma {:induction false} AllMarked(input: ByteString, k: nat)
    requires k <= |input| && forall n: nat :: !Number(input, n)
    ensures forall i :: 0 <= i < k ==> input[i] >= 128
  {
    if k > 0 {
      AllMarked(input, k - 1);
      assert !Number(input, k);
    }
  }

  /** The encoding of a value is a number of that weight, without padding, and nothing more. */
  lemma {:induction false} EncodesExactly(v: nat)
    ensures var b := Encode(v); Number(b, |b|) && Weight(b) == v && (|b| > 1 ==> b[|b| - 1] != 0)
  {
    var b := Encode(v);
    WeightOf(b);
    if v >= 128 {
      EncodesExactly(v / 128);
      var rest := Encode(v / 128);
      assert b == [v % 128 + 128] + rest && b[1..] == rest;
      hide Encode, Weight;
      assert b[|b| - 1] == rest[|rest| - 1];
      assert forall i :: 0 <= i < |rest| ==> b[i + 1] == rest[i];
    }
  }

  /** The bytes are these numbers, one behind the other. */
  ghost predicate Spells(b: ByteString, numbers: seq<nat>)
    decreases |numbers|
  {
    if numbers == [] then b == []
    else exists n: nat :: Number(b, n) && Weight(b[..n]) == numbers[0] && Spells(b[n..], numbers[1..])
  }

  lemma SpellsMore(v: nat, b: ByteString, numbers: seq<nat>)
    requires Spells(b, numbers)
    ensures Spells(Encode(v) + b, [v] + numbers)
  {
    var e := Encode(v);
    EncodesExactly(v);
    hide Encode, Weight;
    var all, n := e + b, |e|;
    assert all[..n] == e && all[n..] == b && ([v] + numbers)[1..] == numbers;
    assert Number(all, n) by {
      assert forall i :: 0 <= i < n ==> all[i] == e[i];
    }
  }
}
