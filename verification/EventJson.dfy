/** The canonical JSON (RFC 8785) a version 2 event is hashed as, and that it determines the event. */
module EventJson {
  import opened Common
  import opened Text
  import opened RuntimeEvents
  import opened EventBinding
  import Utf8

  /** A character in a JSON string, section 3.2.2.2 of RFC 8785. */
  function EscapeChar(c: char): (r: string)
    ensures r != []
  {
    if c == '"' then "\\\""
    else if c == '\\' then "\\\\"
    else if c as int == 8 then "\\b"
    else if c as int == 9 then "\\t"
    else if c as int == 10 then "\\n"
    else if c as int == 12 then "\\f"
    else if c as int == 13 then "\\r"
    else if c as int < 0x20 then "\\u00" + [HexDigit(c as int / 16), HexDigit(c as int % 16)]
    else [c]
  }

  function Escape(s: string): string {
    if s == [] then [] else EscapeChar(s[0]) + Escape(s[1..])
  }

  /** `canonical_event_json_v2`. */
  function Canonical(name: string, payload: ByteString): string {
    "{\"name\":\"" + (Escape(name) + ("\",\"payload\":\"" + (EncodeHex(payload) + "\",\"type\":134217729}")))
  }

  function CanonicalBytes(name: string, payload: ByteString): ByteString {
    Utf8.Encode(Canonical(name, payload))
  }

  lemma HexDigitsDiffer(c: char, d: char)
    requires c as int < 0x20 && d as int < 0x20
    requires HexDigit(c as int / 16) == HexDigit(d as int / 16) && HexDigit(c as int % 16) == HexDigit(d as int % 16)
    ensures c == d
  {
    HexDigitValue(c as int / 16);
    HexDigitValue(d as int / 16);
    HexDigitValue(c as int % 16);
    HexDigitValue(d as int % 16);
  }

  /** Whether the character is written as itself. */
  predicate Literal(c: char) {
    c != '"' && c != '\\' && c as int >= 0x20
  }

  lemma EscapeStart(c: char, x: string)
    ensures var s := EscapeChar(c) + x;
            if Literal(c) then s[0] == c else |s| >= 2 && s[0] == '\\'
    ensures EscapeChar(c) != "\"" && (EscapeChar(c) + x)[0] != '"'
  {
  }

  /** No escape is the beginning of another. */
  lemma EscapePrefixFree(c: char, x: string, d: char, y: string)
    requires EscapeChar(c) + x == EscapeChar(d) + y
    ensures c == d && x == y
  {
    var s := EscapeChar(c) + x;
    EscapeStart(c, x);
    EscapeStart(d, y);
    if Literal(c) {
      assert c == d;
    } else {
      assert s[1] == EscapeChar(c)[1] == EscapeChar(d)[1];
      if s[1] == 'u' {
        assert s[4] == EscapeChar(c)[4] == EscapeChar(d)[4] && s[5] == EscapeChar(c)[5] == EscapeChar(d)[5];
        HexDigitsDiffer(c, d);
      }
    }
    assert x == s[|EscapeChar(c)|..] && y == s[|EscapeChar(d)|..];
  }

  /** A quoted string ends at its closing quote in one way. */
  lemma {:induction false} EscapeEnds(s: string, x: string, t: string, y: string)
    requires Escape(s) + ("\"" + x) == Escape(t) + ("\"" + y)
    ensures s == t && x == y
    decreases |s|
  {
    hide EscapeChar;
    if s == [] {
      assert Escape(s) + ("\"" + x) == "\"" + x;
      if t != [] {
        assert Escape(t) + ("\"" + y) == EscapeChar(t[0]) + (Escape(t[1..]) + ("\"" + y));
        EscapeStart(t[0], Escape(t[1..]) + ("\"" + y));
      } else {
        assert Escape(t) + ("\"" + y) == "\"" + y;
        assert ("\"" + x)[1..] == x && ("\"" + y)[1..] == y;
      }
    } else {
      assert Escape(s) + ("\"" + x) == EscapeChar(s[0]) + (Escape(s[1..]) + ("\"" + x));
      if t == [] {
        assert Escape(t) + ("\"" + y) == "\"" + y;
        EscapeStart(s[0], Escape(s[1..]) + ("\"" + x));
      } else {
        assert Escape(t) + ("\"" + y) == EscapeChar(t[0]) + (Escape(t[1..]) + ("\"" + y));
        EscapePrefixFree(s[0], Escape(s[1..]) + ("\"" + x), t[0], Escape(t[1..]) + ("\"" + y));
        EscapeEnds(s[1..], x, t[1..], y);
        assert s == [s[0]] + s[1..] && t == [t[0]] + t[1..];
      }
    }
  }

  lemma DropFront(p: string, x: string, y: string)
    requires p + x == p + y
    ensures x == y
  {
    assert (p + x)[|p|..] == x && (p + y)[|p|..] == y;
  }

  /** The canonical form determines name and payload. */
  lemma CanonicalInjective(name: string, payload: ByteString, name': string, payload': ByteString)
    requires Canonical(name, payload) == Canonical(name', payload')
    ensures name == name' && payload == payload'
  {
    hide Escape, EncodeHex;
    var end, mid := "\",\"type\":134217729}", ",\"payload\":\"";
    var x, x' := EncodeHex(payload) + end, EncodeHex(payload') + end;
    assert "\",\"payload\":\"" + x == "\"" + (mid + x) && "\",\"payload\":\"" + x' == "\"" + (mid + x');
    DropFront("{\"name\":\"", Escape(name) + ("\"" + (mid + x)), Escape(name') + ("\"" + (mid + x')));
    EscapeEnds(name, mid + x, name', mid + x');
    DropFront(mid, x, x');
    assert |EncodeHex(payload)| == |EncodeHex(payload')|;
    assert EncodeHex(payload) == x[..|x| - |end|] && EncodeHex(payload') == x'[..|x'| - |end|];
    HexRoundTrip(payload);
    HexRoundTrip(payload');
  }

  /** So version 2 logs are bound by their registers. */
  lemma CanonicalBinds()
    ensures InjectiveJson(CanonicalBytes)
  {
    hide Canonical;
    forall n, p, n', p' | CanonicalBytes(n, p) == CanonicalBytes(n', p')
      ensures n == n' && p == p'
    {
      Utf8.Injective(Canonical(n, p), Canonical(n', p'));
      CanonicalInjective(n, p, n', p');
    }
  }

  // ----- as a JSON reader sees it -----

  /** The character after a backslash, section 7 of RFC 8259; `\u` is read apart. */
  function Unescaped(c: char): Option<char> {
    match c
    case '"' => Some('"')
    case '\\' => Some('\\')
    case '/' => Some('/')
    case 'b' => Some(8 as char)
    case 'f' => Some(12 as char)
    case 'n' => Some(10 as char)
    case 'r' => Some(13 as char)
    case 't' => Some(9 as char)
    case _ => None
  }

  /** A string up to its closing quote, and what follows it. */
  function ReadString(s: string): Option<(string, string)>
    decreases |s|
  {
    if s == [] || s[0] as int < 0x20 then None
    else if s[0] == '"' then Some(([], s[1..]))
    else if s[0] != '\\' then More(s[0], ReadString(s[1..]))
    else if |s| < 2 then None
    else if s[1] != 'u' then
      if Unescaped(s[1]).None? then None else More(Unescaped(s[1]).value, ReadString(s[2..]))
    else if |s| < 6 || s[2] != '0' || s[3] != '0' || HexValue(s[4]).None? || HexValue(s[5]).None? then None
    else
      HexValueBound(s[4]);
      HexValueBound(s[5]);
      More((HexValue(s[4]).value * 16 + HexValue(s[5]).value) as char, ReadString(s[6..]))
  }

  function More(c: char, r: Option<(string, string)>): Option<(string, string)> {
    match r
    case None => None
    case Some((s, rest)) => Some(([c] + s, rest))
  }

  lemma CharReads(c: char, x: string)
    ensures ReadString(EscapeChar(c) + x) == More(c, ReadString(x))
  {
    var s := EscapeChar(c) + x;
    if Literal(c) {
      assert s[1..] == x;
    } else if c == '"' || c == '\\' || c as int in [8, 9, 10, 12, 13] {
      ShortReads(c, x);
    } else {
      HexReads(c, x);
    }
  }

  lemma ShortReads(c: char, x: string)
    requires c == '"' || c == '\\' || c as int in [8, 9, 10, 12, 13]
    ensures ReadString(EscapeChar(c) + x) == More(c, ReadString(x))
  {
    var e := EscapeChar(c);
    var s := e + x;
    assert |e| == 2 && e[0] == '\\' && e[1] != 'u' && Unescaped(e[1]) == Some(c);
    assert s[0] == e[0] && s[1] == e[1] && s[2..] == x;
    hide EscapeChar, Unescaped;
  }

  lemma HexReads(c: char, x: string)
    requires c as int < 0x20 && c as int !in [8, 9, 10, 12, 13]
    ensures ReadString(EscapeChar(c) + x) == More(c, ReadString(x))
  {
    var high, low := c as int / 16, c as int % 16;
    HexDigitValue(high);
    HexDigitValue(low);
    var s := EscapeChar(c) + x;
    assert EscapeChar(c) == "\\u00" + [HexDigit(high), HexDigit(low)];
    assert s[..6] == EscapeChar(c) && s[6..] == x;
    assert s[0] == '\\' && s[1] == 'u' && s[2] == '0' && s[3] == '0' && s[4] == HexDigit(high) && s[5] == HexDigit(low);
    hide EscapeChar, HexDigit, HexValue;
  }

  lemma {:induction false} EscapeReads(s: string, rest: string)
    ensures ReadString(Escape(s) + ("\"" + rest)) == Some((s, rest))
    decreases |s|
  {
    hide EscapeChar, ReadString;
    if s == [] {
      QuoteEnds(rest);
      assert Escape(s) + ("\"" + rest) == "\"" + rest;
    } else {
      EscapeReads(s[1..], rest);
      CharReads(s[0], Escape(s[1..]) + ("\"" + rest));
      assert EscapeChar(s[0]) + Escape(s[1..]) + ("\"" + rest) == EscapeChar(s[0]) + (Escape(s[1..]) + ("\"" + rest));
      assert [s[0]] + s[1..] == s;
    }
  }

  lemma QuoteEnds(rest: string)
    ensures ReadString("\"" + rest) == Some(([], rest))
  {
    assert ("\"" + rest)[1..] == rest;
  }

  /** The canonical form reads as an object of three members in the order of their keys: the name, the
      payload in hexadecimal, and the type. */
  lemma CanonicalReads(name: string, payload: ByteString)
    ensures var text := Canonical(name, payload);
            && |text| >= 9 && text[..9] == "{\"name\":\""
            && ReadString(text[9..]) == Some((name, ",\"payload\":\"" + (EncodeHex(payload) + "\",\"type\":134217729}")))
  {
    hide Escape, ReadString, EncodeHex;
    var tail := ",\"payload\":\"" + (EncodeHex(payload) + "\",\"type\":134217729}");
    var text, open := Canonical(name, payload), "{\"name\":\"";
    assert |open| == 9;
    EscapeReads(name, tail);
    QuoteThen(EncodeHex(payload) + "\",\"type\":134217729}");
    assert text[..9] == open && text[9..] == Escape(name) + ("\"" + tail);
  }

  lemma QuoteThen(x: string)
    ensures "\",\"payload\":\"" + x == "\"" + (",\"payload\":\"" + x)
  {
    assert "\",\"payload\":\"" == "\"" + ",\"payload\":\"";
  }
}
