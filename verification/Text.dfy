/** Strings: whitespace, words, hexadecimal, and the rootfs identity in a command line. */
module Text {
  import opened Common

  // ----- whitespace -----

  /** Unicode White_Space, which `trim` and `split_whitespace` go by. */
  predicate IsSpace(c: char) {
    var n := c as int;
    9 <= n <= 13 || n == 0x20 || n == 0x85 || n == 0xA0 || n == 0x1680 || 0x2000 <= n <= 0x200A
    || n == 0x2028 || n == 0x2029 || n == 0x202F || n == 0x205F || n == 0x3000
  }

  function TrimStart(s: string): (r: string)
    ensures |r| <= |s|
    ensures r != [] ==> !IsSpace(r[0])
  {
    if s != [] && IsSpace(s[0]) then TrimStart(s[1..]) else s
  }

  function TrimEnd(s: string): (r: string)
    ensures r <= s
    ensures r != [] ==> !IsSpace(r[|r| - 1])
  {
    if s != [] && IsSpace(s[|s| - 1]) then TrimEnd(s[..|s| - 1]) else s
  }

  function Trim(s: string): string {
    TrimEnd(TrimStart(s))
  }

  lemma {:induction false} TrimTwice(s: string)
    ensures Trim(Trim(s)) == Trim(s)
  {
    var t := TrimStart(s);
    var r := TrimEnd(t);
    assert r != [] ==> r[0] == t[0];
    assert TrimStart(r) == r;
    assert TrimEnd(r) == r;
  }

  lemma {:induction false} StartTrims(s: string)
    ensures TrimStart(s) == "" <==> forall i :: 0 <= i < |s| ==> IsSpace(s[i])
  {
    hide IsSpace;
    if s != [] && IsSpace(s[0]) {
      StartTrims(s[1..]);
      assert forall i :: 1 <= i < |s| ==> s[i] == s[1..][i - 1];
    }
  }

  lemma {:induction false} EndTrims(s: string)
    requires s != "" ==> !IsSpace(s[0])
    ensures TrimEnd(s) == "" <==> s == ""
  {
    hide IsSpace;
    if s != [] && IsSpace(s[|s| - 1]) {
      EndTrims(s[..|s| - 1]);
    }
  }

  /** Only blank text trims to nothing. */
  lemma TrimsToNothing(s: string)
    ensures Trim(s) == "" <==> forall i :: 0 <= i < |s| ==> IsSpace(s[i])
  {
    hide IsSpace;
    StartTrims(s);
    EndTrims(TrimStart(s));
  }

  // ----- ASCII -----

  predicate IsAlphanumeric(c: char) {
    '0' <= c <= '9' || 'a' <= c <= 'z' || 'A' <= c <= 'Z'
  }

  /** The same by code point. */
  predicate IsLetterOrDigit(c: char) {
    48 <= c as int <= 57 || 65 <= c as int <= 90 || 97 <= c as int <= 122
  }

  function ToLower(c: char): char {
    if 'A' <= c <= 'Z' then (c as int + 32) as char else c
  }

  /** Lower case of the ASCII letters; other characters stay. */
  function Lower(s: string): (r: string)
    ensures |r| == |s|
  {
    seq(|s|, i requires 0 <= i < |s| => ToLower(s[i]))
  }

  /** `trim_end_matches('.')`. */
  function TrimDots(s: string): (r: string)
    ensures r <= s && (r != [] ==> r[|r| - 1] != '.')
  {
    if s != [] && s[|s| - 1] == '.' then TrimDots(s[..|s| - 1]) else s
  }

  predicate Dots(s: string) {
    forall i :: 0 <= i < |s| ==> s[i] == '.'
  }

  lemma {:induction false} TrimsDots(s: string, dots: string)
    requires Dots(dots) && (s != "" ==> s[|s| - 1] != '.')
    ensures TrimDots(s + dots) == s
    decreases |dots|
  {
    if dots == "" {
      assert s + dots == s;
    } else {
      assert (s + dots)[..|s + dots| - 1] == s + dots[..|dots| - 1];
      TrimsDots(s, dots[..|dots| - 1]);
    }
  }

  predicate SameLetter(c: char, d: char) {
    c == d || (65 <= c as int <= 90 && d as int == c as int + 32) || (65 <= d as int <= 90 && c as int == d as int + 32)
  }

  /** Equal up to the case of ASCII letters. */
  predicate SameLetters(a: string, b: string) {
    |a| == |b| && forall i :: 0 <= i < |a| ==> SameLetter(a[i], b[i])
  }

  lemma SameFold(c: char, d: char)
    ensures ToLower(c) == ToLower(d) <==> SameLetter(c, d)
  {
  }

  lemma SameFolds(a: string, b: string)
    ensures Lower(a) == Lower(b) <==> SameLetters(a, b)
  {
    hide ToLower, SameLetter;
    if |a| == |b| {
      forall i | 0 <= i < |a|
        ensures ToLower(a[i]) == ToLower(b[i]) <==> SameLetter(a[i], b[i])
      {
        SameFold(a[i], b[i]);
      }
      assert forall i :: 0 <= i < |a| ==> Lower(a)[i] == ToLower(a[i]) && Lower(b)[i] == ToLower(b[i]);
    }
  }

  // ----- words -----

  /** The words of `current + s`, where `current` is the word being read. */
  function WordsFrom(s: string, current: string): seq<string> {
    if s == [] then (if current == [] then [] else [current])
    else if IsSpace(s[0]) then (if current == [] then [] else [current]) + WordsFrom(s[1..], [])
    else WordsFrom(s[1..], current + [s[0]])
  }

  /** `split_whitespace`. */
  function Words(s: string): seq<string> {
    WordsFrom(s, [])
  }

  lemma {:induction false} WordsTrailing(s: string, c: char, current: string)
    requires IsSpace(c)
    ensures WordsFrom(s + [c], current) == WordsFrom(s, current)
    decreases |s|
  {
    if s == [] {
      assert (s + [c])[1..] == [];
      assert WordsFrom(s + [c], current) == (if current == [] then [] else [current]) + WordsFrom([], []);
    } else {
      assert (s + [c])[1..] == s[1..] + [c];
      if IsSpace(s[0]) {
        WordsTrailing(s[1..], c, []);
      } else {
        WordsTrailing(s[1..], c, current + [s[0]]);
      }
    }
  }

  lemma {:induction false} WordsTrimEnd(s: string)
    ensures Words(TrimEnd(s)) == Words(s)
  {
    if s != [] && IsSpace(s[|s| - 1]) {
      WordsTrimEnd(s[..|s| - 1]);
      WordsTrailing(s[..|s| - 1], s[|s| - 1], []);
      assert s == s[..|s| - 1] + [s[|s| - 1]];
    }
  }

  lemma {:induction false} WordsTrimStart(s: string)
    ensures Words(TrimStart(s)) == Words(s)
  {
    if s != [] && IsSpace(s[0]) {
      WordsTrimStart(s[1..]);
    }
  }

  /** Trimming does not change the words. */
  lemma WordsTrim(s: string)
    ensures Words(Trim(s)) == Words(s)
  {
    WordsTrimStart(s);
    WordsTrimEnd(TrimStart(s));
  }

  predicate NoSpace(s: string) {
    forall i :: 0 <= i < |s| ==> !IsSpace(s[i])
  }

  lemma {:induction false} OnlyWord(w: string, current: string)
    requires NoSpace(w) && current + w != []
    ensures WordsFrom(w, current) == [current + w]
    decreases |w|
  {
    hide IsSpace;
    if w == [] {
      assert current + w == current;
    } else {
      OnlyWord(w[1..], current + [w[0]]);
      assert current + [w[0]] + w[1..] == current + w;
    }
  }

  // ----- hexadecimal -----

  function HexDigit(n: nat): char
    requires n < 16
  {
    "0123456789abcdef"[n]
  }

  function HexValue(c: char): Option<nat> {
    if '0' <= c <= '9' then Some(c as int - '0' as int)
    else if 'a' <= c <= 'f' then Some(c as int - 'a' as int + 10)
    else if 'A' <= c <= 'F' then Some(c as int - 'A' as int + 10)
    else None
  }

  lemma HexDigitValue(n: nat)
    requires n < 16
    ensures HexValue(HexDigit(n)) == Some(n)
  {
  }

  lemma HexValueBound(c: char)
    ensures HexValue(c).Some? ==> HexValue(c).value < 16
  {
  }

  /** `hex::encode`. */
  function EncodeHex(b: ByteString): (r: string)
    ensures |r| == 2 * |b|
  {
    if b == [] then [] else [HexDigit(b[0] / 16), HexDigit(b[0] % 16)] + EncodeHex(b[1..])
  }

  /** `hex::decode`: either case, an even number of digits. */
  function DecodeHex(s: string): (r: Option<ByteString>)
    ensures r.Some? ==> 2 * |r.value| == |s|
  {
    if s == [] then Some([])
    else if |s| == 1 || HexValue(s[0]).None? || HexValue(s[1]).None? then None
    else
      HexValueBound(s[0]);
      HexValueBound(s[1]);
      match DecodeHex(s[2..])
      case None => None
      case Some(b) => Some([HexValue(s[0]).value * 16 + HexValue(s[1]).value] + b)
  }

  lemma DecodePair(c: char, d: char, s: string, high: nat, low: nat, b: ByteString)
    requires HexValue(c) == Some(high) && HexValue(d) == Some(low) && DecodeHex(s) == Some(b)
    ensures high < 16 && low < 16 && DecodeHex([c, d] + s) == Some([high * 16 + low] + b)
  {
    HexValueBound(c);
    HexValueBound(d);
    hide HexValue;
    assert ([c, d] + s)[2..] == s;
  }

  lemma HexPair(x: Byte, s: string, b: ByteString)
    requires DecodeHex(s) == Some(b)
    ensures DecodeHex([HexDigit(x / 16), HexDigit(x % 16)] + s) == Some([x] + b)
  {
    hide HexDigit, HexValue, DecodeHex;
    HexDigitValue(x / 16);
    HexDigitValue(x % 16);
    DecodePair(HexDigit(x / 16), HexDigit(x % 16), s, x / 16, x % 16, b);
  }

  lemma {:induction false} HexRoundTrip(b: ByteString)
    ensures DecodeHex(EncodeHex(b)) == Some(b)
  {
    hide HexDigit, HexValue;
    if b != [] {
      HexRoundTrip(b[1..]);
      HexPair(b[0], EncodeHex(b[1..]), b[1..]);
      hide DecodeHex;
      assert b == [b[0]] + b[1..];
    }
  }

  /** Lower-case digits determine their bytes and are determined by them. */
  predicate LowerHex(s: string) {
    forall i :: 0 <= i < |s| ==> IsLowerDigit(s[i])
  }

  predicate IsLowerDigit(c: char) {
    '0' <= c <= '9' || 'a' <= c <= 'f'
  }

  lemma LowerDigit(c: char)
    requires IsLowerDigit(c)
    ensures HexValue(c).Some? && HexValue(c).value < 16 && HexDigit(HexValue(c).value) == c
  {
    if '0' <= c <= '9' {
      assert c as int - '0' as int < 10;
    }
  }

  /** Two digits and what follows, in both directions. */
  lemma LowerPair(c: char, d: char, s: string, b: ByteString)
    requires IsLowerDigit(c) && IsLowerDigit(d) && DecodeHex(s) == Some(b) && EncodeHex(b) == s
    ensures DecodeHex([c, d] + s).Some? && EncodeHex(DecodeHex([c, d] + s).value) == [c, d] + s
  {
    LowerDigit(c);
    LowerDigit(d);
    hide HexDigit, IsLowerDigit, DecodeHex;
    var high, low := HexValue(c).value, HexValue(d).value;
    hide HexValue;
    DecodePair(c, d, s, high, low, b);
    var x := [high * 16 + low] + b;
    assert x[0] / 16 == high && x[0] % 16 == low && x[1..] == b;
  }

  lemma {:induction false} LowerHexRoundTrip(s: string)
    requires LowerHex(s) && DecodeHex(s).Some?
    ensures EncodeHex(DecodeHex(s).value) == s
  {
    if s != [] {
      assert DecodeHex(s[2..]).Some?;
      hide DecodeHex, EncodeHex, IsLowerDigit;
      LowerHexRoundTrip(s[2..]);
      LowerPair(s[0], s[1], s[2..], DecodeHex(s[2..]).value);
      assert s == [s[0], s[1]] + s[2..];
    }
  }

  lemma {:induction false} HexIsLower(b: ByteString)
    ensures LowerHex(EncodeHex(b))
  {
    if b != [] {
      HexIsLower(b[1..]);
      DigitIsLower(b[0] / 16);
      DigitIsLower(b[0] % 16);
      hide HexDigit, IsLowerDigit;
    }
  }

  lemma DigitIsLower(n: nat)
    requires n < 16
    ensures IsLowerDigit(HexDigit(n))
  {
  }

  // ----- the rootfs identity in a kernel command line -----

  const ROOTFS_PARAM := "dstack.rootfs_hash="

  /** The values given to `dstack.rootfs_hash`, in order. */
  function RootfsValues(words: seq<string>): seq<string> {
    if words == [] then []
    else
      RootfsValues(words[..|words| - 1]) + RootfsValue(words[|words| - 1])
  }

  function RootfsValue(word: string): seq<string> {
    if ROOTFS_PARAM <= word then [word[|ROOTFS_PARAM|..]] else []
  }

  /** `decode_optional_hex`: empty, or hexadecimal of the given length. */
  function DecodeOptionalHex(value: string, len: nat): Result<ByteString> {
    if value == "" then Ok([])
    else
      match DecodeHex(value)
      case None => Err
      case Some(b) => if |b| == len then Ok(b) else Err
  }

  function DecodeRequiredHex(value: string, len: nat): Result<ByteString> {
    if value == "" then Err else DecodeOptionalHex(value, len)
  }

  /** The command line must name exactly one rootfs, by a 32-byte digest. */
  function RootfsHash(cmdline: string): Result<ByteString> {
    var values := RootfsValues(Words(cmdline));
    if |values| != 1 then Err else DecodeRequiredHex(values[0], 32)
  }

  lemma RootfsHashOfTrimmed(cmdline: string)
    ensures RootfsHash(Trim(cmdline)) == RootfsHash(cmdline)
  {
    WordsTrim(cmdline);
  }

  lemma NextRootfsValue(words: seq<string>, i: nat)
    requires i < |words|
    ensures RootfsValues(words[..i + 1]) == RootfsValues(words[..i]) + RootfsValue(words[i])
    ensures |RootfsValue(words[i])| <= 1
  {
    assert words[..i + 1][..i] == words[..i];
  }

  /** The last value given, provided there is only one. */
  method OnlyRootfsValue(words: seq<string>) returns (value: Option<string>)
    ensures value.Some? <==> |RootfsValues(words)| == 1
    ensures value.Some? ==> RootfsValues(words) == [value.value]
  {
    hide RootfsValues, RootfsValue;
    value := None;
    NoRootfsValues();
    for i := 0 to |words|
      invariant RootfsValues(words[..i]) == if value.Some? then [value.value] else []
    {
      NextRootfsValue(words, i);
      var found := RootfsValue(words[i]);
      if found != [] {
        if value.Some? {
          RootfsValuesGrow(words, i + 1);
          return None;
        }
        value := Some(found[0]);
      }
    }
    assert words[..|words|] == words;
  }

  lemma NoRootfsValues()
    ensures RootfsValues([]) == []
  {
  }

  /** `rootfs_hash_from_cmdline`. */
  method RootfsHashFromCmdline(cmdline: string) returns (r: Result<string>)
    ensures r.Err? <==> RootfsHash(cmdline).Err?
    ensures r.Ok? ==> r.value == EncodeHex(RootfsHash(cmdline).value)
  {
    hide EncodeHex, DecodeRequiredHex, RootfsValues, Words;
    var value := OnlyRootfsValue(Words(cmdline));
    if value.None? {
      return Err;
    }
    var decoded := DecodeRequiredHex(value.value, 32);
    if decoded.Err? {
      return Err;
    }
    return Ok(EncodeHex(decoded.value));
  }

  lemma {:induction false} RootfsValuesGrow(words: seq<string>, i: nat)
    requires i <= |words|
    ensures |RootfsValues(words[..i])| <= |RootfsValues(words)|
    decreases |words|
  {
    if i < |words| {
      RootfsValuesGrow(words[..|words| - 1], i);
      assert words[..|words| - 1][..i] == words[..i];
    } else {
      assert words[..i] == words;
    }
  }

  predicate NamesRootfs(word: string) {
    "dstack.rootfs_hash=" <= word
  }

  lemma {:induction false} ValuesSplit(a: seq<string>, b: seq<string>)
    ensures RootfsValues(a + b) == RootfsValues(a) + RootfsValues(b)
    decreases |b|
  {
    hide RootfsValues, RootfsValue;
    if b == [] {
      NoRootfsValues();
      assert a + b == a && RootfsValues(a) + [] == RootfsValues(a);
    } else {
      var init, last := b[..|b| - 1], b[|b| - 1];
      ValuesSplit(a, init);
      LastValue(a + init, last);
      LastValue(init, last);
      assert b == init + [last] && a + b == a + init + [last];
      assert RootfsValues(a) + RootfsValues(init) + RootfsValue(last)
          == RootfsValues(a) + (RootfsValues(init) + RootfsValue(last));
    }
  }

  lemma LastValue(words: seq<string>, last: string)
    ensures RootfsValues(words + [last]) == RootfsValues(words) + RootfsValue(last)
  {
    hide RootfsValue;
    assert (words + [last])[..|words|] == words;
  }

  lemma {:induction false} NoValues(words: seq<string>)
    requires forall j :: 0 <= j < |words| ==> !NamesRootfs(words[j])
    ensures RootfsValues(words) == []
  {
    if words != [] {
      NoValues(words[..|words| - 1]);
      NotAValue(words[|words| - 1]);
      hide RootfsValue, NamesRootfs;
    }
  }

  lemma NotAValue(word: string)
    requires !NamesRootfs(word)
    ensures RootfsValue(word) == []
  {
  }

  lemma AValue(word: string)
    requires NamesRootfs(word)
    ensures |word| >= 19 && RootfsValue(word) == [word[19..]]
  {
  }

  lemma Around(words: seq<string>, i: nat)
    requires i < |words|
    ensures RootfsValues(words) == RootfsValues(words[..i]) + RootfsValue(words[i]) + RootfsValues(words[i + 1..])
  {
    hide RootfsValue;
    assert words == words[..i + 1] + words[i + 1..];
    ValuesSplit(words[..i + 1], words[i + 1..]);
    NextRootfsValue(words, i);
  }

  /** If one word of the command line names a rootfs, its value is the digest, 64 hexadecimal digits long; */
  lemma RootfsNamedOnce(cmdline: string, i: nat)
    requires i < |Words(cmdline)| && NamesRootfs(Words(cmdline)[i])
    requires forall j :: 0 <= j < |Words(cmdline)| && j != i ==> !NamesRootfs(Words(cmdline)[j])
    ensures var value := Words(cmdline)[i][19..];
            RootfsHash(cmdline) == if |value| == 64 && DecodeHex(value).Some? then Ok(DecodeHex(value).value) else Err
  {
    hide Words, DecodeHex, RootfsValues, RootfsValue, NamesRootfs;
    var words := Words(cmdline);
    Around(words, i);
    NoValues(words[..i]);
    NoValues(words[i + 1..]);
    AValue(words[i]);
    assert [] + [words[i][19..]] + [] == [words[i][19..]];
  }

  /** if none or several do, it is refused. */
  lemma RootfsNotNamedOnce(cmdline: string)
    requires var words := Words(cmdline);
             || (forall j :: 0 <= j < |words| ==> !NamesRootfs(words[j]))
             || (exists i, j :: 0 <= i < j < |words| && NamesRootfs(words[i]) && NamesRootfs(words[j]))
    ensures RootfsHash(cmdline) == Err
  {
    hide Words, DecodeHex, RootfsValues, RootfsValue, NamesRootfs;
    var words := Words(cmdline);
    if forall j :: 0 <= j < |words| ==> !NamesRootfs(words[j]) {
      NoValues(words);
    } else {
      var i, j :| 0 <= i < j < |words| && NamesRootfs(words[i]) && NamesRootfs(words[j]);
      Around(words, i);
      var rest := words[i + 1..];
      assert rest[j - i - 1] == words[j];
      Around(rest, j - i - 1);
      AValue(words[i]);
      AValue(words[j]);
    }
  }
}
