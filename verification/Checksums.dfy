/** `sha256sum.txt`: the file whose digest is the image identity, read in exactly one way. */
module Checksums {
  import opened Common
  import opened Text
  import opened Splitting
  import Utf8

  datatype Entry = Entry(hash: ByteString, name: string)

  predicate IsNameChar(c: char) {
    IsAlphanumeric(c) || c == '.' || c == '_' || c == '-'
  }

  /** `is_valid_name`: a file in the image root other than the manifest itself. */
  predicate IsValidName(name: string) {
    && name != []
    && IsAlphanumeric(name[0])
    && (forall i :: 0 <= i < |name| ==> IsNameChar(name[i]))
    && name != "sha256sum.txt"
  }

  /** Letters, digits, dots, underscores and hyphens, beginning with a letter or digit: no path
      separator, no hidden file, no parent directory. */
  lemma ValidNameIs(name: string)
    ensures IsValidName(name)
            <==> && name != "" && name != "sha256sum.txt" && IsLetterOrDigit(name[0])
                 && forall i :: 0 <= i < |name| ==>
                      IsLetterOrDigit(name[i]) || name[i] as int == 45 || name[i] as int == 46 || name[i] as int == 95
  {
    forall i | 0 <= i < |name|
      ensures IsNameChar(name[i])
              <==> IsLetterOrDigit(name[i]) || name[i] as int == 45 || name[i] as int == 46 || name[i] as int == 95
      ensures IsAlphanumeric(name[i]) <==> IsLetterOrDigit(name[i])
    {
      CharIs(name[i]);
    }
    hide IsNameChar, IsAlphanumeric, IsLetterOrDigit;
  }

  lemma CharIs(c: char)
    ensures IsAlphanumeric(c) <==> IsLetterOrDigit(c)
    ensures IsNameChar(c) <==> IsLetterOrDigit(c) || c as int == 45 || c as int == 46 || c as int == 95
  {
    assert '-' as int == 45 && '.' as int == 46 && '_' as int == 95;
    if c as int == 45 || c as int == 46 || c as int == 95 {
      assert c == '-' || c == '.' || c == '_';
    }
  }

  predicate ValidEntry(e: Entry) {
    |e.hash| == 32 && IsValidName(e.name)
  }

  /** `split_once` around the first two spaces. */
  function SplitSpaces(s: string): (r: Option<(string, string)>)
    ensures r.Some? ==> s == r.value.0 + ("  " + r.value.1)
  {
    if |s| < 2 then None
    else if s[0] == ' ' && s[1] == ' ' then Some(([], s[2..]))
    else
      match SplitSpaces(s[1..])
      case None => None
      case Some((a, b)) => Some(([s[0]] + a, b))
  }

  lemma SplitSpacesSkip(c: char, s: string, a: string, b: string)
    requires c != ' ' && SplitSpaces(s) == Some((a, b))
    ensures SplitSpaces([c] + s) == Some(([c] + a, b))
  {
    assert ([c] + s)[1..] == s;
  }

  lemma {:induction false} SplitSpacesAt(a: string, b: string)
    requires Without(a, ' ')
    ensures SplitSpaces(a + ("  " + b)) == Some((a, b))
    decreases |a|
  {
    if a == [] {
      assert a + ("  " + b) == "  " + b && ("  " + b)[2..] == b;
    } else {
      hide SplitSpaces;
      SplitSpacesAt(a[1..], b);
      SplitSpacesSkip(a[0], a[1..] + ("  " + b), a[1..], b);
      assert [a[0]] + a[1..] == a && [a[0]] + (a[1..] + ("  " + b)) == a + ("  " + b);
    }
  }

  /** `parse_line`. */
  function ParseLine(line: string): Option<Entry> {
    match SplitSpaces(line)
    case None => None
    case Some((hex, name)) =>
      if !LowerHex(hex) || !IsValidName(name) then None
      else
        match DecodeHex(hex)
        case None => None
        case Some(hash) => if |hash| == 32 then Some(Entry(hash, name)) else None
  }

  function PrintLine(e: Entry): string {
    EncodeHex(e.hash) + ("  " + e.name)
  }

  // ----- one line -----

  lemma LowerHasNo(s: string, c: char)
    requires LowerHex(s) && !IsLowerDigit(c)
    ensures Without(s, c)
  {
    hide IsLowerDigit;
  }

  lemma PrintedLineParses(e: Entry)
    requires ValidEntry(e)
    ensures ParseLine(PrintLine(e)) == Some(e)
  {
    hide DecodeHex, EncodeHex, IsValidName, SplitSpaces;
    HexIsLower(e.hash);
    LowerHasNo(EncodeHex(e.hash), ' ');
    SplitSpacesAt(EncodeHex(e.hash), e.name);
    HexRoundTrip(e.hash);
  }

  lemma ParsedLineIsPrinted(line: string)
    requires ParseLine(line).Some?
    ensures ValidEntry(ParseLine(line).value) && PrintLine(ParseLine(line).value) == line
  {
    hide DecodeHex, EncodeHex, IsValidName, SplitSpaces, LowerHex;
    LowerHexRoundTrip(SplitSpaces(line).value.0);
  }

  lemma PrintedLineIsOneLine(e: Entry)
    requires ValidEntry(e)
    ensures Without(PrintLine(e), '\n')
  {
    HexIsLower(e.hash);
    LowerHasNo(EncodeHex(e.hash), '\n');
    hide EncodeHex;
    assert Without(e.name, '\n');
  }

  // ----- the file -----

  predicate HasName(entries: seq<Entry>, name: string) {
    exists i :: 0 <= i < |entries| && entries[i].name == name
  }

  function ParseLines(lines: seq<string>): Result<seq<Entry>> {
    if lines == [] then Ok([])
    else
      var front, entry := ParseLines(lines[..|lines| - 1]), ParseLine(lines[|lines| - 1]);
      if front.Err? || entry.None? || HasName(front.value, entry.value.name) then Err
      else Ok(front.value + [entry.value])
  }

  function ParseSpec(text: string): Result<seq<Entry>> {
    if text == [] || text[|text| - 1] != '\n' then Err else ParseLines(Split(text[..|text| - 1], '\n'))
  }

  function PrintLines(entries: seq<Entry>): (lines: seq<string>)
    ensures |lines| == |entries|
    ensures forall i :: 0 <= i < |entries| ==> lines[i] == PrintLine(entries[i])
  {
    seq(|entries|, i requires 0 <= i < |entries| => PrintLine(entries[i]))
  }

  function Print(entries: seq<Entry>): string
    requires entries != []
  {
    Join(PrintLines(entries), '\n') + ['\n']
  }

  predicate ValidEntries(entries: seq<Entry>) {
    forall i :: 0 <= i < |entries| ==> ValidEntry(entries[i])
  }

  predicate UniqueNames(entries: seq<Entry>) {
    forall i, j :: 0 <= i < j < |entries| ==> entries[i].name != entries[j].name
  }

  lemma {:induction false} PrintedLinesParse(entries: seq<Entry>)
    requires ValidEntries(entries) && UniqueNames(entries)
    ensures ParseLines(PrintLines(entries)) == Ok(entries)
  {
    hide ParseLine, PrintLine, ValidEntry;
    if entries != [] {
      var init, last := entries[..|entries| - 1], entries[|entries| - 1];
      PrintedLinesParse(init);
      PrintedLineParses(last);
      assert PrintLines(entries)[..|entries| - 1] == PrintLines(init);
      assert entries == init + [last];
      assert !HasName(init, last.name);
    }
  }

  lemma PrintedTextParses(entries: seq<Entry>)
    requires entries != [] && ValidEntries(entries) && UniqueNames(entries)
    ensures ParseSpec(Print(entries)) == Ok(entries)
  {
    hide ParseLines, PrintLine, ValidEntry, Split, Join, Without, UniqueNames;
    var lines := PrintLines(entries);
    forall i | 0 <= i < |lines|
      ensures Without(lines[i], '\n')
    {
      PrintedLineIsOneLine(entries[i]);
    }
    SplitJoin(lines, '\n');
    PrintedLinesParse(entries);
    var text := Print(entries);
    assert text[..|text| - 1] == Join(lines, '\n');
  }

  lemma {:induction false} ParsedLinesArePrinted(lines: seq<string>)
    requires ParseLines(lines).Ok?
    ensures var entries := ParseLines(lines).value;
            ValidEntries(entries) && UniqueNames(entries) && PrintLines(entries) == lines
  {
    hide ParseLine, PrintLine, ValidEntry;
    if lines != [] {
      var init, last := lines[..|lines| - 1], lines[|lines| - 1];
      ParsedLinesArePrinted(init);
      ParsedLineIsPrinted(last);
      var front, e := ParseLines(init).value, ParseLine(last).value;
      UniqueMore(front, e);
      hide UniqueNames, HasName;
      assert PrintLines(front + [e]) == PrintLines(front) + [PrintLine(e)];
      assert lines == init + [last];
    }
  }

  lemma UniqueMore(entries: seq<Entry>, e: Entry)
    requires UniqueNames(entries) && !HasName(entries, e.name)
    ensures UniqueNames(entries + [e])
  {
  }

  lemma ParsedTextIsPrinted(text: string)
    requires ParseSpec(text).Ok?
    ensures var entries := ParseSpec(text).value;
            entries != [] && ValidEntries(entries) && UniqueNames(entries) && Print(entries) == text
  {
    hide ParseLines, PrintLine, ValidEntry, Split, Join, UniqueNames;
    var body := text[..|text| - 1];
    var lines := Split(body, '\n');
    ParsedLinesArePrinted(lines);
    JoinSplit(body, '\n');
    assert text == body + ['\n'];
  }

  // ----- the file's bytes -----

  function ParseFile(file: ByteString): Result<seq<Entry>> {
    match Utf8.Decode(file)
    case None => Err
    case Some(text) => ParseSpec(text)
  }

  function PrintFile(entries: seq<Entry>): ByteString
    requires entries != []
  {
    Utf8.Encode(Print(entries))
  }

  /** Every non-empty list of valid, uniquely named entries parses back to itself. */
  lemma ParsePrint(entries: seq<Entry>)
    requires entries != [] && ValidEntries(entries) && UniqueNames(entries)
    ensures ParseFile(PrintFile(entries)) == Ok(entries)
  {
    hide ParseSpec, Print, UniqueNames, ValidEntries;
    PrintedTextParses(entries);
    Utf8.ReadsBack(Print(entries));
  }

  /** Every accepted file is, byte for byte, the printing of its entries. */
  lemma PrintParse(file: ByteString)
    requires ParseFile(file).Ok?
    ensures var entries := ParseFile(file).value;
            entries != [] && ValidEntries(entries) && UniqueNames(entries) && PrintFile(entries) == file
  {
    hide ParseSpec, Print, UniqueNames, ValidEntries;
    ParsedTextIsPrinted(Utf8.Decode(file).value);
    Utf8.WritesBack(file);
  }

  // ----- the source's loop and lookup -----

  /** `parse`. */
  method Parse(file: ByteString) returns (res: Result<seq<Entry>>)
    ensures res == ParseFile(file)
  {
    hide ParseLine, Split, ParseLines;
    var decoded := Utf8.Decode(file);
    if decoded.None? {
      return Err;
    }
    var text := decoded.value;
    if text == [] || text[|text| - 1] != '\n' {
      return Err;
    }
    var lines := Split(text[..|text| - 1], '\n');
    NoLines();
    var entries: seq<Entry> := [];
    for i := 0 to |lines|
      invariant ParseLines(lines[..i]) == Ok(entries)
    {
      NextLine(lines, i);
      var entry := ParseLine(lines[i]);
      if entry.None? || HasName(entries, entry.value.name) {
        SpoiledLines(lines, i + 1);
        return Err;
      }
      entries := entries + [entry.value];
    }
    assert lines[..|lines|] == lines;
    return Ok(entries);
  }

  lemma NoLines()
    ensures ParseLines([]) == Ok([])
  {
  }

  lemma NextLine(lines: seq<string>, i: nat)
    requires i < |lines|
    ensures var front, entry := ParseLines(lines[..i]), ParseLine(lines[i]);
            ParseLines(lines[..i + 1])
            == if front.Err? || entry.None? || HasName(front.value, entry.value.name) then Err
               else Ok(front.value + [entry.value])
  {
    hide ParseLine;
    assert lines[..i + 1][..i] == lines[..i];
  }

  lemma {:induction false} SpoiledLines(lines: seq<string>, i: nat)
    requires i <= |lines| && ParseLines(lines[..i]).Err?
    ensures ParseLines(lines).Err?
    decreases |lines| - i
  {
    hide ParseLines, ParseLine;
    if i < |lines| {
      NextLine(lines, i);
      SpoiledLines(lines, i + 1);
    } else {
      assert lines[..i] == lines;
    }
  }

  /** `entry_hash`: found exactly when the file lists the name, and then the only digest it has. */
  method EntryHash(file: ByteString, name: string) returns (res: Result<ByteString>)
    ensures res.Ok? <==> ParseFile(file).Ok? && HasName(ParseFile(file).value, name)
    ensures res.Ok? ==> forall e :: e in ParseFile(file).value && e.name == name ==> e.hash == res.value
  {
    hide ParseFile, ValidEntry;
    var parsed := Parse(file);
    if parsed.Err? {
      return Err;
    }
    var entries := parsed.value;
    ParsedAreUnique(file);
    for i := 0 to |entries|
      invariant forall j :: 0 <= j < i ==> entries[j].name != name
    {
      if entries[i].name == name {
        return Ok(entries[i].hash);
      }
    }
    return Err;
  }

  lemma ParsedAreUnique(file: ByteString)
    requires ParseFile(file).Ok?
    ensures UniqueNames(ParseFile(file).value)
  {
    hide ParseFile, ValidEntry, UniqueNames;
    PrintParse(file);
  }
}
