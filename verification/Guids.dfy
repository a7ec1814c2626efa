/** GUIDs as text and as the mixed-endian bytes EFI stores, and hexadecimal constants. */
module Guids {
  import opened Common
  import opened Text
  import opened Splitting

  function Reverse(b: ByteString): ByteString {
    if b == [] then [] else Reverse(b[1..]) + [b[0]]
  }

  /** `encode_guid`: five groups of hexadecimal, the first three with their bytes reversed. */
  function EncodeGuid(text: string): Result<ByteString> {
    var atoms := Split(text, '-');
    if |atoms| != 5 then Err
    else
      EncodeAtoms(
        DecodeHex(atoms[0]), DecodeHex(atoms[1]), DecodeHex(atoms[2]), DecodeHex(atoms[3]), DecodeHex(atoms[4]))
  }

  function EncodeAtoms(
    a: Option<ByteString>, b: Option<ByteString>, c: Option<ByteString>, d: Option<ByteString>, e: Option<ByteString>)
    : Result<ByteString>
  {
    if a.None? || b.None? || c.None? || d.None? || e.None? then Err
    else Ok(Reverse(a.value) + Reverse(b.value) + Reverse(c.value) + d.value + e.value)
  }

  // ----- reading constants -----

  /** The byte two digits stand for. */
  predicate Reads(c: char, d: char, b: Byte) {
    HexValue(c) == Some(b / 16) && HexValue(d) == Some(b % 16)
  }

  lemma HexByte(s: string, b: Byte, rest: ByteString)
    requires |s| >= 2 && Reads(s[0], s[1], b) && DecodeHex(s[2..]) == Some(rest)
    ensures DecodeHex(s) == Some([b] + rest)
  {
    hide HexValue;
  }

  lemma HexTwo(s: string, a: Byte, b: Byte, rest: ByteString)
    requires |s| >= 4 && Reads(s[0], s[1], a) && Reads(s[2], s[3], b) && DecodeHex(s[4..]) == Some(rest)
    ensures DecodeHex(s) == Some([a, b] + rest)
  {
    hide Reads, DecodeHex;
    var t := s[2..];
    assert t[2..] == s[4..] && t[0] == s[2] && t[1] == s[3];
    HexByte(t, b, rest);
    HexByte(s, a, [b] + rest);
    assert [a] + ([b] + rest) == [a, b] + rest;
  }

  lemma HexFour(s: string, a: Byte, b: Byte, c: Byte, d: Byte, rest: ByteString)
    requires |s| >= 8 && Reads(s[0], s[1], a) && Reads(s[2], s[3], b) && Reads(s[4], s[5], c) && Reads(s[6], s[7], d)
    requires DecodeHex(s[8..]) == Some(rest)
    ensures DecodeHex(s) == Some([a, b, c, d] + rest)
  {
    hide Reads, DecodeHex;
    var t := s[4..];
    assert t[4..] == s[8..] && t[0] == s[4] && t[1] == s[5] && t[2] == s[6] && t[3] == s[7];
    HexTwo(t, c, d, rest);
    HexTwo(s, a, b, [c, d] + rest);
    assert [a, b] + ([c, d] + rest) == [a, b, c, d] + rest;
  }

  lemma HexNothing()
    ensures DecodeHex("") == Some([])
  {
  }

  /** Two digits. */
  lemma HexTwoBytes(s: string, a: Byte, b: Byte)
    requires |s| == 4 && Reads(s[0], s[1], a) && Reads(s[2], s[3], b)
    ensures DecodeHex(s) == Some([a, b]) && Without(s, '-')
  {
    DigitsAreNoDash(s, s[0], s[1], a);
    DigitsAreNoDash(s, s[2], s[3], b);
    hide Reads, DecodeHex;
    HexNothing();
    assert s[4..] == "" && [a, b] + [] == [a, b];
    HexTwo(s, a, b, []);
  }

  lemma HexFourBytes(s: string, a: Byte, b: Byte, c: Byte, d: Byte)
    requires |s| == 8 && Reads(s[0], s[1], a) && Reads(s[2], s[3], b) && Reads(s[4], s[5], c) && Reads(s[6], s[7], d)
    ensures DecodeHex(s) == Some([a, b, c, d]) && Without(s, '-')
  {
    DigitsAreNoDash(s, s[0], s[1], a);
    DigitsAreNoDash(s, s[2], s[3], b);
    DigitsAreNoDash(s, s[4], s[5], c);
    DigitsAreNoDash(s, s[6], s[7], d);
    hide Reads, DecodeHex;
    HexNothing();
    assert s[8..] == "" && [a, b, c, d] + [] == [a, b, c, d];
    HexFour(s, a, b, c, d, []);
  }

  lemma DigitsAreNoDash(s: string, c: char, d: char, b: Byte)
    requires Reads(c, d, b)
    ensures c != '-' && d != '-'
  {
  }

  lemma HexSixBytes(s: string, a: Byte, b: Byte, c: Byte, d: Byte, e: Byte, f: Byte)
    requires |s| == 12 && Reads(s[0], s[1], a) && Reads(s[2], s[3], b) && Reads(s[4], s[5], c) && Reads(s[6], s[7], d)
    requires Reads(s[8], s[9], e) && Reads(s[10], s[11], f)
    ensures DecodeHex(s) == Some([a, b, c, d, e, f]) && Without(s, '-')
  {
    hide DecodeHex;
    var t := s[8..];
    assert t[0] == s[8] && t[1] == s[9] && t[2] == s[10] && t[3] == s[11];
    HexTwoBytes(t, e, f);
    DigitsAreNoDash(s, s[0], s[1], a);
    DigitsAreNoDash(s, s[2], s[3], b);
    DigitsAreNoDash(s, s[4], s[5], c);
    DigitsAreNoDash(s, s[6], s[7], d);
    DigitsAreNoDash(s, s[8], s[9], e);
    DigitsAreNoDash(s, s[10], s[11], f);
    hide Reads;
    HexFour(s, a, b, c, d, [e, f]);
    assert [a, b, c, d] + [e, f] == [a, b, c, d, e, f];
  }

  lemma ReverseTwo(a: Byte, b: Byte)
    ensures Reverse([a, b]) == [b, a]
  {
    assert [a, b][1..] == [b] && [b][1..] == [];
    assert Reverse([b]) == Reverse([]) + [b];
  }

  lemma ReverseFour(a: Byte, b: Byte, c: Byte, d: Byte)
    ensures Reverse([a, b, c, d]) == [d, c, b, a]
  {
    assert [a, b, c, d][1..] == [b, c, d] && [b, c, d][1..] == [c, d];
    ReverseTwo(c, d);
    assert Reverse([b, c, d]) == Reverse([c, d]) + [b];
    assert Reverse([a, b, c, d]) == Reverse([b, c, d]) + [a];
  }

  /** The five groups with their dashes. */
  function Guid(a: string, b: string, c: string, d: string, e: string): string {
    a + ("-" + (b + ("-" + (c + ("-" + (d + ("-" + e)))))))
  }

  lemma GuidIs(a: string, b: string, c: string, d: string, e: string,
               x: ByteString, y: ByteString, z: ByteString, u: ByteString, v: ByteString)
    requires Without(a, '-') && Without(b, '-') && Without(c, '-') && Without(d, '-') && Without(e, '-')
    requires DecodeHex(a) == Some(x) && DecodeHex(b) == Some(y) && DecodeHex(c) == Some(z)
    requires DecodeHex(d) == Some(u) && DecodeHex(e) == Some(v)
    ensures EncodeGuid(Guid(a, b, c, d, e)) == Ok(Reverse(x) + Reverse(y) + Reverse(z) + u + v)
  {
    hide Split, Without, DecodeHex, Reverse;
    SplitLast(e, '-');
    SplitFirst(d, e, '-');
    SplitFirst(c, d + ("-" + e), '-');
    SplitFirst(b, c + ("-" + (d + ("-" + e))), '-');
    SplitFirst(a, b + ("-" + (c + ("-" + (d + ("-" + e))))), '-');
    assert [a] + ([b] + ([c] + ([d] + [e]))) == [a, b, c, d, e];
  }

  predicate ReadsTwo(s: string, a: Byte, b: Byte) {
    |s| == 4 && Reads(s[0], s[1], a) && Reads(s[2], s[3], b)
  }

  predicate ReadsFour(s: string, a: Byte, b: Byte, c: Byte, d: Byte) {
    |s| == 8 && Reads(s[0], s[1], a) && Reads(s[2], s[3], b) && Reads(s[4], s[5], c) && Reads(s[6], s[7], d)
  }

  predicate ReadsSix(s: string, a: Byte, b: Byte, c: Byte, d: Byte, e: Byte, f: Byte) {
    && |s| == 12 && Reads(s[0], s[1], a) && Reads(s[2], s[3], b) && Reads(s[4], s[5], c)
    && Reads(s[6], s[7], d) && Reads(s[8], s[9], e) && Reads(s[10], s[11], f)
  }

  /** The bytes a GUID is stored as are what its text encodes to. */
  lemma SpelledGuid(a: string, b: string, c: string, d: string, e: string, g: ByteString)
    requires |g| == 16 && ReadsFour(a, g[3], g[2], g[1], g[0]) && ReadsTwo(b, g[5], g[4]) && ReadsTwo(c, g[7], g[6])
    requires ReadsTwo(d, g[8], g[9]) && ReadsSix(e, g[10], g[11], g[12], g[13], g[14], g[15])
    ensures EncodeGuid(Guid(a, b, c, d, e)) == Ok(g)
  {
    hide Reads, EncodeGuid, DecodeHex, Reverse, Without, Guid;
    HexFourBytes(a, g[3], g[2], g[1], g[0]);
    HexTwoBytes(b, g[5], g[4]);
    HexTwoBytes(c, g[7], g[6]);
    HexTwoBytes(d, g[8], g[9]);
    HexSixBytes(e, g[10], g[11], g[12], g[13], g[14], g[15]);
    ReverseFour(g[3], g[2], g[1], g[0]);
    ReverseTwo(g[5], g[4]);
    ReverseTwo(g[7], g[6]);
    GuidIs(a, b, c, d, e, [g[3], g[2], g[1], g[0]], [g[5], g[4]], [g[7], g[6]], [g[8], g[9]],
           [g[10], g[11], g[12], g[13], g[14], g[15]]);
    BytesParts(g);
  }

  lemma BytesParts(g: ByteString)
    requires |g| == 16
    ensures [g[0], g[1], g[2], g[3]] + [g[4], g[5]] + [g[6], g[7]] + [g[8], g[9]]
            + [g[10], g[11], g[12], g[13], g[14], g[15]] == g
  {
  }
}
