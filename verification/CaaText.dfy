/** CAA records as the provider renders them: flags, tag and quoted value. */
module CaaText {
  import opened Common
  import opened Text
  import opened Splitting

  datatype ChallengeKind = Dns01 | DnsPersist01

  /** `caa_content`: the value that pins issuance to one account. */
  function CaaContent(kind: ChallengeKind, issuer: string, accountUri: string): string {
    issuer + ";validationmethods=" + (if kind == Dns01 then "dns-01" else "dns-persist-01") + ";accounturi=" + accountUri
  }

  /** How a record added with flags 0 reads back. */
  function Render(tag: string, value: string): string {
    "0 " + (tag + (" " + ("\"" + value + "\"")))
  }

  function CaaTag(content: string): Option<string> {
    if |Words(content)| < 2 then None else Some(Words(content)[1])
  }

  function TrimQuotesStart(s: string): string {
    if s != [] && s[0] == '"' then TrimQuotesStart(s[1..]) else s
  }

  function TrimQuotesEnd(s: string): string {
    if s != [] && s[|s| - 1] == '"' then TrimQuotesEnd(s[..|s| - 1]) else s
  }

  function TrimQuotes(s: string): string {
    TrimQuotesEnd(TrimQuotesStart(s))
  }

  predicate IsIssuerTag(tag: Option<string>) {
    tag == Some("issue") || tag == Some("issuewild")
  }

  /** `is_caa_guard`: an issuer record whose whole value is `;`, which denies every issuer. */
  predicate IsCaaGuard(content: string) {
    && IsIssuerTag(CaaTag(content))
    && |Words(content)| == 3
    && TrimQuotes(Words(content)[2]) == ";"
  }

  // ----- what certbot's own records read back as -----

  /** A word, a space, and the rest. */
  lemma {:induction false} FirstWord(w: string, rest: string, current: string)
    requires NoSpace(w) && current + w != []
    ensures WordsFrom(w + (" " + rest), current) == [current + w] + Words(rest)
    decreases |w|
  {
    hide IsSpace;
    var s := w + (" " + rest);
    if w == [] {
      assert s == " " + rest;
      assert s[0] == ' ' && s[1..] == rest && current + w == current;
      SpaceIsSpace();
    } else {
      assert s[0] == w[0] && s[1..] == w[1..] + (" " + rest);
      FirstWord(w[1..], rest, current + [w[0]]);
      assert current + [w[0]] + w[1..] == current + w;
    }
  }

  lemma SpaceIsSpace()
    ensures IsSpace(' ')
  {
  }

  lemma SplitsOff(w: string, rest: string)
    requires NoSpace(w) && w != []
    ensures Words(w + (" " + rest)) == [w] + Words(rest)
  {
    hide WordsFrom, IsSpace;
    assert [] + w == w;
    FirstWord(w, rest, []);
  }

  lemma Rendered(tag: string, value: string)
    requires tag == "issue" || tag == "issuewild" || tag == "Issue"
    ensures Words(Render(tag, value)) == ["0", tag] + Words("\"" + value + "\"")
  {
    hide Words;
    var quoted := "\"" + value + "\"";
    SplitsOff("0", tag + (" " + quoted));
    SplitsOff(tag, quoted);
    assert "0 " + (tag + (" " + quoted)) == "0" + (" " + (tag + (" " + quoted)));
  }

  lemma RenderedTag(tag: string, value: string)
    requires tag == "issue" || tag == "issuewild" || tag == "Issue"
    ensures CaaTag(Render(tag, value)) == Some(tag)
  {
    hide Words, Render;
    Rendered(tag, value);
  }

  /** The guards certbot adds are recognised as guards. */
  lemma GuardIsGuard(tag: string)
    requires tag == "issue" || tag == "issuewild"
    ensures IsCaaGuard(Render(tag, ";"))
  {
    hide Render;
    Rendered(tag, ";");
    QuotedSemicolon();
    hide Words, TrimQuotes;
    assert "\"" + ";" + "\"" == "\";\"";
  }

  lemma QuotedSemicolon()
    ensures Words("\";\"") == ["\";\""] && TrimQuotes("\";\"") == ";"
  {
    var s := "\";\"";
    OnlyWord(s, []);
    assert [] + s == s;
    assert s[1..] == ";\"" && (";\"")[..1] == ";";
    assert TrimQuotesStart(s) == ";\"";
    assert TrimQuotesEnd(";\"") == TrimQuotesEnd(";") == ";";
  }

  /** A character that is no space ends up in some word. */
  lemma {:induction false} CharInSomeWord(s: string, current: string, c: char)
    requires !IsSpace(c) && (c in s || c in current)
    ensures exists k :: 0 <= k < |WordsFrom(s, current)| && c in WordsFrom(s, current)[k]
    decreases |s|
  {
    hide IsSpace;
    var ws := WordsFrom(s, current);
    if s == [] {
      assert c in ws[0];
    } else if IsSpace(s[0]) {
      if c in current {
        assert c in ws[0];
      } else {
        CharInSomeWord(s[1..], [], c);
        var rest := WordsFrom(s[1..], []);
        var k :| 0 <= k < |rest| && c in rest[k];
        var n := if current == [] then 0 else 1;
        assert ws[n + k] == rest[k];
      }
    } else {
      CharInSomeWord(s[1..], current + [s[0]], c);
    }
  }

  lemma {:induction false} TrimQuotesStartKeeps(s: string, c: char)
    requires c in s && c != '"'
    ensures c in TrimQuotesStart(s)
  {
    if s[0] == '"' {
      TrimQuotesStartKeeps(s[1..], c);
    }
  }

  lemma {:induction false} TrimQuotesEndKeeps(s: string, c: char)
    requires c in s && c != '"'
    ensures c in TrimQuotesEnd(s)
  {
    if s[|s| - 1] == '"' {
      TrimQuotesEndKeeps(s[..|s| - 1], c);
    }
  }

  lemma NoGuardWithLetter(content: string, value: string, c: char)
    requires |Words(content)| >= 2 && Words(content) == Words(content)[..2] + Words(value)
    requires c in value && !IsSpace(c) && c != '"' && c != ';'
    ensures !IsCaaGuard(content)
  {
    var ws := Words(content);
    CharInSomeWord(value, [], c);
    hide WordsFrom, IsSpace;
    var k :| 0 <= k < |Words(value)| && c in Words(value)[k];
    assert ws[2 + k] == Words(value)[k];
    if |ws| == 3 {
      TrimQuotesStartKeeps(ws[2], c);
      TrimQuotesEndKeeps(TrimQuotesStart(ws[2]), c);
      hide TrimQuotesStart, TrimQuotesEnd;
    }
  }

  /** The records certbot installs in the end are not guards, whatever issuer and account they name. */
  lemma ContentIsNoGuard(tag: string, kind: ChallengeKind, issuer: string, accountUri: string)
    requires tag == "issue" || tag == "issuewild"
    ensures !IsCaaGuard(Render(tag, CaaContent(kind, issuer, accountUri)))
  {
    var value := CaaContent(kind, issuer, accountUri);
    LetterInContent(kind, issuer, accountUri);
    var quoted := "\"" + value + "\"";
    assert 'v' in quoted;
    Rendered(tag, value);
    hide Words, Render, CaaContent, IsCaaGuard;
    assert Words(Render(tag, value))[..2] == ["0", tag];
    NoGuardWithLetter(Render(tag, value), quoted, 'v');
  }

  lemma LetterInContent(kind: ChallengeKind, issuer: string, accountUri: string)
    ensures 'v' in CaaContent(kind, issuer, accountUri)
  {
    var front := issuer + ";validationmethods=";
    assert front[|issuer| + 1] == 'v';
    assert CaaContent(kind, issuer, accountUri)[|issuer| + 1] == 'v';
  }

  // ----- what a CA reads -----

  /** A rendered record: flags 0, the tag, and the value between quotes. */
  lemma RenderedReads(tag: string, value: string)
    requires (tag == "issue" || tag == "issuewild") && NoSpace(value)
    ensures Words(Render(tag, value)) == ["0", tag, "\"" + value + "\""]
  {
    hide Words, Render, IsSpace;
    Rendered(tag, value);
    QuotedIsOneWord(value);
  }

  lemma QuotedIsOneWord(value: string)
    requires NoSpace(value)
    ensures Words("\"" + value + "\"") == ["\"" + value + "\""]
  {
    var quoted := "\"" + value + "\"";
    assert NoSpace(quoted);
    hide IsSpace;
    OnlyWord(quoted, "");
    assert "" + quoted == quoted;
  }

  /** A guard denies every issuer: its value names none (section 4.2 of RFC 8659). */
  lemma GuardDenies(content: string)
    requires IsCaaGuard(content)
    ensures |Words(content)| == 3 && (Words(content)[1] == "issue" || Words(content)[1] == "issuewild")
    ensures Split(TrimQuotes(Words(content)[2]), ';')[0] == ""
  {
    hide Words, TrimQuotes;
  }

  /** The value installed in the end names the issuer, and restricts it to one validation method and
      one account (sections 3 and 4 of RFC 8657). */
  lemma ContentReads(kind: ChallengeKind, issuer: string, accountUri: string)
    requires Without(issuer, ';') && Without(accountUri, ';')
    ensures Split(CaaContent(kind, issuer, accountUri), ';')
            == [issuer, "validationmethods=" + (if kind == Dns01 then "dns-01" else "dns-persist-01"),
                "accounturi=" + accountUri]
  {
    hide Split;
    var validation, account := "validationmethods=" + (if kind == Dns01 then "dns-01" else "dns-persist-01"),
                           "accounturi=" + accountUri;
    assert Without(validation, ';') && Without(account, ';');
    hide Without;
    SplitLast(account, ';');
    SplitFirst(validation, account, ';');
    SplitFirst(issuer, validation + (";" + account), ';');
    ContentParts(kind, issuer, accountUri);
  }

  lemma ContentHasNoSpace(kind: ChallengeKind, issuer: string, accountUri: string)
    requires NoSpace(issuer) && NoSpace(accountUri)
    ensures NoSpace(CaaContent(kind, issuer, accountUri))
  {
    hide IsSpace;
    VisibleIsNoSpace(";validationmethods=");
    VisibleIsNoSpace("dns-01");
    VisibleIsNoSpace("dns-persist-01");
    VisibleIsNoSpace(";accounturi=");
    var a := issuer + ";validationmethods=";
    var b := a + (if kind == Dns01 then "dns-01" else "dns-persist-01");
    assert NoSpace(a) && NoSpace(b) && NoSpace(b + ";accounturi=");
  }

  lemma VisibleIsNoSpace(s: string)
    requires forall i :: 0 <= i < |s| ==> '!' <= s[i] <= '~'
    ensures NoSpace(s)
  {
  }

  lemma ContentParts(kind: ChallengeKind, issuer: string, accountUri: string)
    ensures CaaContent(kind, issuer, accountUri)
            == issuer + (";" + (("validationmethods=" + (if kind == Dns01 then "dns-01" else "dns-persist-01"))
                                + (";" + ("accounturi=" + accountUri))))
  {
    var m := if kind == Dns01 then "dns-01" else "dns-persist-01";
    assert issuer + ";validationmethods=" == issuer + (";" + "validationmethods=");
    assert ";accounturi=" + accountUri == ";" + ("accounturi=" + accountUri);
  }
}
