/** UTF-8 (section 3 of RFC 3629): encoding, strict decoding, and that each undoes the other. */
module Utf8 {
  import opened Common

  predicate IsTail(b: Byte) {
    0x80 <= b < 0xC0
  }

  /** The six bits of a tail byte. */
  function Low(b: Byte): (v: nat)
    requires IsTail(b)
    ensures v < 64
  {
    b as int - 0x80
  }

  function EncodeChar(c: char): (b: ByteString)
    ensures 1 <= |b| <= 4
  {
    var v := c as int;
    if v < 0x80 then [v]
    else if v < 0x800 then [0xC0 + v / 64, 0x80 + v % 64]
    else if v < 0x1_0000 then [0xE0 + v / 4096, 0x80 + v / 64 % 64, 0x80 + v % 64]
    else [0xF0 + v / 0x4_0000, 0x80 + v / 4096 % 64, 0x80 + v / 64 % 64, 0x80 + v % 64]
  }

  /** `str::as_bytes`. */
  function Encode(s: string): ByteString {
    if s == [] then [] else EncodeChar(s[0]) + Encode(s[1..])
  }

  /** The length a lead byte announces, and the bits it holds. */
  function Lead(b: Byte): Option<(nat, nat)> {
    if b < 0x80 then Some((1, b))
    else if 0xC0 <= b < 0xE0 then Some((2, b - 0xC0))
    else if 0xE0 <= b < 0xF0 then Some((3, b - 0xE0))
    else if 0xF0 <= b < 0xF8 then Some((4, b - 0xF0))
    else None
  }

  /** The bits of a lead byte followed by those of the tail bytes. */
  function Bits(high: nat, tail: ByteString): nat
    requires forall i :: 0 <= i < |tail| ==> IsTail(tail[i])
  {
    if tail == [] then high else 64 * Bits(high, tail[..|tail| - 1]) + Low(tail[|tail| - 1])
  }

  /** Too short a form for the length, a surrogate, or beyond the last code point. */
  predicate Refused(n: nat, v: nat) {
    || (n == 2 && v < 0x80) || (n == 3 && v < 0x800) || (n == 4 && v < 0x1_0000)
    || 0xD800 <= v < 0xE000 || v >= 0x11_0000
  }

  /** The first character and the number of bytes it takes. */
  function DecodeChar(b: ByteString): (r: Option<(char, nat)>)
    requires b != []
    ensures r.Some? ==> 1 <= r.value.1 <= |b|
  {
    match Lead(b[0])
    case None => None
    case Some((n, high)) =>
      if |b| < n || exists i :: 1 <= i < n && !IsTail(b[i]) then None
      else
        var v := Bits(high, b[1..n]);
        if Refused(n, v) then None else Some((v as char, n))
  }

  /** `str::from_utf8`. */
  function Decode(b: ByteString): Option<string> {
    if b == [] then Some([])
    else
      match DecodeChar(b)
      case None => None
      case Some((c, n)) =>
        match Decode(b[n..])
        case None => None
        case Some(rest) => Some([c] + rest)
  }

  // ----- one character -----

  lemma BitsOne(high: nat, a: Byte)
    requires IsTail(a)
    ensures Bits(high, [a]) == 64 * high + Low(a)
  {
    assert [a][..0] == [] && Bits(high, []) == high;
  }

  lemma BitsTwo(high: nat, a: Byte, b: Byte)
    requires IsTail(a) && IsTail(b)
    ensures Bits(high, [a, b]) == 4096 * high + 64 * Low(a) + Low(b)
  {
    BitsOne(high, a);
    assert [a, b][..1] == [a];
  }

  lemma BitsThree(high: nat, a: Byte, b: Byte, c: Byte)
    requires IsTail(a) && IsTail(b) && IsTail(c)
    ensures Bits(high, [a, b, c]) == 0x4_0000 * high + 4096 * Low(a) + 64 * Low(b) + Low(c)
  {
    BitsTwo(high, a, b);
    assert [a, b, c][..2] == [a, b];
  }

  /** The bits of the encoding's bytes. */
  function Value(b: ByteString): nat
    requires 1 <= |b| <= 4 && forall i :: 1 <= i < |b| ==> IsTail(b[i])
    requires Lead(b[0]).Some?
  {
    Bits(Lead(b[0]).value.1, b[1..])
  }

  lemma ValueIs(b: ByteString)
    requires 1 <= |b| <= 4 && (forall i :: 1 <= i < |b| ==> IsTail(b[i])) && Lead(b[0]).Some?
    ensures var high := Lead(b[0]).value.1;
            Value(b) == match |b|
                        case 1 => high
                        case 2 => 64 * high + Low(b[1])
                        case 3 => 4096 * high + 64 * Low(b[1]) + Low(b[2])
                        case _ => 0x4_0000 * high + 4096 * Low(b[1]) + 64 * Low(b[2]) + Low(b[3])
  {
    hide Bits;
    var high := Lead(b[0]).value.1;
    match |b|
    case 1 =>
      NoBits(high);
      assert b[1..] == [];
    case 2 =>
      BitsOne(high, b[1]);
      assert b[1..] == [b[1]];
    case 3 =>
      BitsTwo(high, b[1], b[2]);
      assert b[1..] == [b[1], b[2]];
    case _ =>
      BitsThree(high, b[1], b[2], b[3]);
      assert b[1..] == [b[1], b[2], b[3]];
  }

  lemma NoBits(high: nat)
    ensures Bits(high, []) == high
  {
  }

  lemma EncodedChar(c: char)
    ensures var b := EncodeChar(c);
            && (forall i :: 1 <= i < |b| ==> IsTail(b[i]))
            && Lead(b[0]).Some? && Lead(b[0]).value.0 == |b|
            && Value(b) == c as int && !Refused(|b|, c as int)
  {
    hide Bits, Value;
    var b, v := EncodeChar(c), c as int;
    ValueIs(b);
    assert v / 4096 == v / 64 / 64 && v / 0x4_0000 == v / 4096 / 64;
  }

  lemma CharReadsBack(c: char, rest: ByteString)
    ensures DecodeChar(EncodeChar(c) + rest) == Some((c, |EncodeChar(c)|))
  {
    hide EncodeChar, Bits, Lead, Refused;
    EncodedChar(c);
    var b := EncodeChar(c);
    assert (b + rest)[1..|b|] == b[1..];
  }

  lemma CharWritesBack(b: ByteString)
    requires b != [] && DecodeChar(b).Some?
    ensures var (c, n) := DecodeChar(b).value; EncodeChar(c) == b[..n]
  {
    hide Bits;
    var (c, n) := DecodeChar(b).value;
    assert b[..n][1..] == b[1..n];
    ValueIs(b[..n]);
    FromValue(b[..n], c);
  }

  lemma FromValue(b: ByteString, c: char)
    requires 1 <= |b| <= 4 && (forall i :: 1 <= i < |b| ==> IsTail(b[i]))
    requires Lead(b[0]).Some? && Lead(b[0]).value.0 == |b|
    requires Value(b) == c as int && !Refused(|b|, c as int)
    ensures EncodeChar(c) == b
  {
    ValueIs(b);
    hide Bits, Value;
    var v, high := c as int, Lead(b[0]).value.1;
    match |b|
    case 1 =>
    case 2 =>
      SixBits(v, high, Low(b[1]));
    case 3 =>
      SixBits(v, 64 * high + Low(b[1]), Low(b[2]));
      SixBits(v / 64, high, Low(b[1]));
      assert v / 4096 == v / 64 / 64;
    case _ =>
      SixBits(v, 4096 * high + 64 * Low(b[1]) + Low(b[2]), Low(b[3]));
      SixBits(v / 64, 64 * high + Low(b[1]), Low(b[2]));
      SixBits(v / 64 / 64, high, Low(b[1]));
      assert v / 4096 == v / 64 / 64 && v / 0x4_0000 == v / 64 / 64 / 64;
  }

  lemma SixBits(v: int, high: int, low: int)
    requires 0 <= low < 64 && v == 64 * high + low
    ensures v / 64 == high && v % 64 == low
  {
  }

  // ----- text -----

  /** Decoding an encoding returns the text. */
  lemma {:induction false} ReadsBack(s: string)
    ensures Decode(Encode(s)) == Some(s)
  {
    hide DecodeChar, EncodeChar;
    if s != [] {
      ReadsBack(s[1..]);
      var b, rest := EncodeChar(s[0]), Encode(s[1..]);
      CharReadsBack(s[0], rest);
      assert (b + rest)[|b|..] == rest;
      assert [s[0]] + s[1..] == s;
    }
  }

  /** Different texts have different bytes. */
  lemma Injective(s: string, t: string)
    requires Encode(s) == Encode(t)
    ensures s == t
  {
    ReadsBack(s);
    ReadsBack(t);
  }

  /** Whatever decodes is the encoding of its text, so every text has one form. */
  lemma {:induction false} WritesBack(b: ByteString)
    requires Decode(b).Some?
    ensures Encode(Decode(b).value) == b
    decreases |b|
  {
    hide DecodeChar, EncodeChar;
    if b != [] {
      var (c, n) := DecodeChar(b).value;
      CharWritesBack(b);
      WritesBack(b[n..]);
      var rest := Decode(b[n..]).value;
      assert ([c] + rest)[1..] == rest;
      assert b == b[..n] + b[n..];
    }
  }

  /** The examples of section 7 of RFC 3629, and one character of each length. */
  lemma Examples()
    ensures EncodeChar('A') == [0x41] && EncodeChar(0xA2 as char) == [0xC2, 0xA2]
    ensures EncodeChar(0x2262 as char) == [0xE2, 0x89, 0xA2] && EncodeChar(0x233B4 as char) == [0xF0, 0xA3, 0x8E, 0xB4]
  {
  }
}
