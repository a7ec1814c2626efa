/** UTF-16 in little-endian bytes (RFC 2781), as EFI measures text. */
module Utf16 {
  import opened Common

  function Unit(v: nat): (b: ByteString)
    ensures |b| == 2
  {
    Le(v, 2)
  }

  /** One unit, or a pair of surrogates. */
  function EncodeChar(c: char): ByteString {
    var v := c as int;
    if v < 0x1_0000 then Unit(v)
    else Unit(0xD800 + (v - 0x1_0000) / 0x400) + Unit(0xDC00 + (v - 0x1_0000) % 0x400)
  }

  /** `encode_utf16`, each unit little-endian. */
  function Encode(s: string): ByteString {
    if s == [] then [] else EncodeChar(s[0]) + Encode(s[1..])
  }

  /** The unit at the front. */
  function FirstUnit(b: ByteString): nat
    requires |b| >= 2
  {
    b[0] as int + 256 * b[1] as int
  }

  predicate Leading(u: nat) {
    0xD800 <= u < 0xDC00
  }

  predicate Trailing(u: nat) {
    0xDC00 <= u < 0xE000
  }

  function Decode(b: ByteString): Option<string>
    decreases |b|
  {
    if b == [] then Some([])
    else if |b| < 2 then None
    else
      var u := FirstUnit(b);
      if Trailing(u) || u > 0xFFFF then None
      else if !Leading(u) then Then(u as char, Decode(b[2..]))
      else if |b| < 4 || !Trailing(FirstUnit(b[2..])) then None
      else Then((0x1_0000 + 0x400 * (u - 0xD800) + (FirstUnit(b[2..]) - 0xDC00)) as char, Decode(b[4..]))
  }

  function Then(c: char, rest: Option<string>): Option<string> {
    if rest.None? then None else Some([c] + rest.value)
  }

  lemma UnitReads(v: nat, rest: ByteString)
    requires v < 0x1_0000
    ensures FirstUnit(Unit(v) + rest) == v && (Unit(v) + rest)[2..] == rest
  {
    assert Le(v / 256, 1) == [v / 256];
    assert Le(v, 2) == [v % 256] + Le(v / 256, 1);
  }

  lemma CharReads(c: char, rest: ByteString)
    ensures Decode(EncodeChar(c) + rest) == Then(c, Decode(rest))
  {
    hide Unit;
    var v := c as int;
    if v < 0x1_0000 {
      UnitReads(v, rest);
    } else {
      var high, low := 0xD800 + (v - 0x1_0000) / 0x400, 0xDC00 + (v - 0x1_0000) % 0x400;
      UnitReads(high, Unit(low) + rest);
      UnitReads(low, rest);
      var b := Unit(high) + Unit(low) + rest;
      assert b == Unit(high) + (Unit(low) + rest);
      assert b[4..] == rest;
      hide FirstUnit;
    }
  }

  /** Decoding an encoding returns the text. */
  lemma {:induction false} ReadsBack(s: string)
    ensures Decode(Encode(s)) == Some(s)
  {
    hide Decode, EncodeChar;
    if s == [] {
      NothingReads();
    } else {
      ReadsBack(s[1..]);
      CharReads(s[0], Encode(s[1..]));
      assert [s[0]] + s[1..] == s;
    }
  }

  lemma NothingReads()
    ensures Decode([]) == Some([])
  {
  }

  /** Different texts have different bytes. */
  lemma Injective(s: string, t: string)
    requires Encode(s) == Encode(t)
    ensures s == t
  {
    ReadsBack(s);
    ReadsBack(t);
  }

  lemma {:induction false} EncodeConcat(s: string, t: string)
    ensures Encode(s + t) == Encode(s) + Encode(t)
    decreases |s|
  {
    hide EncodeChar;
    if s == [] {
      assert s + t == t;
    } else {
      EncodeConcat(s[1..], t);
      assert (s + t)[1..] == s[1..] + t && (s + t)[0] == s[0];
    }
  }

  /** An ASCII character takes its code with a zero byte behind it. */
  lemma AsciiChar(c: char)
    requires c as int < 128
    ensures EncodeChar(c) == [c as int, 0]
  {
    LeSmall(c as int);
  }

  /** A surrogate pair, from section 5 of RFC 2781. */
  lemma PairExample()
    ensures EncodeChar(0x12345 as char) == [0x08, 0xD8, 0x45, 0xDF]
  {
    assert Unit(0xD808) == [0x08, 0xD8] && Unit(0xDF45) == [0x45, 0xDF];
  }
}
