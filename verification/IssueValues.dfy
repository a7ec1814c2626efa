/** What the issue-value parser makes of every record, stated on the record as it is written. */
module IssueValues {
  import opened Common
  import opened Text
  import opened Splitting
  import opened DnsPersist

  predicate IsBlank(c: char) {
    c == ' ' || c == '\t'
  }

  predicate Blank(s: string) {
    forall i :: 0 <= i < |s| ==> IsBlank(s[i])
  }

  /** No blank at either end. */
  predicate Tight(s: string) {
    s != "" ==> !IsBlank(s[0]) && !IsBlank(s[|s| - 1])
  }

  /** A parameter as written, with the blanks around its two halves. */
  datatype Item = Item(before: string, tag: string, left: string, right: string, value: string, after: string)

  ghost predicate WellFormed(lower: Lowering, i: Item) {
    && Blank(i.before) && Blank(i.left) && Blank(i.right) && Blank(i.after)
    && i.tag != "" && Tight(i.tag) && Without(i.tag, '=') && Without(i.tag, ';') && lower(i.tag) != ""
    && forall k :: 0 <= k < |i.value| ==> '!' <= i.value[k] <= '~' && i.value[k] != ';'
  }

  function Written(i: Item): string {
    i.before + ((i.tag + i.left) + (['='] + (i.right + (i.value + i.after))))
  }

  function AllWritten(items: seq<Item>): (r: seq<string>)
    ensures |r| == |items| && forall k :: 0 <= k < |items| ==> r[k] == Written(items[k])
  {
    seq(|items|, k requires 0 <= k < |items| => Written(items[k]))
  }

  // ----- trimming -----

  lemma {:induction false} TrimsStart(a: string, s: string)
    requires Blank(a) && (s != "" ==> !IsBlank(s[0]))
    ensures TrimWspStart(a + s) == s
    decreases |a|
  {
    if a == "" {
      assert a + s == s;
    } else {
      assert (a + s)[1..] == a[1..] + s;
      TrimsStart(a[1..], s);
    }
  }

  lemma {:induction false} TrimsEnd(s: string, b: string)
    requires Blank(b) && (s != "" ==> !IsBlank(s[|s| - 1]))
    ensures TrimWspEnd(s + b) == s
    decreases |b|
  {
    if b == "" {
      assert s + b == s;
    } else {
      assert (s + b)[..|s + b| - 1] == s + b[..|b| - 1];
      TrimsEnd(s, b[..|b| - 1]);
    }
  }

  /** Blanks around a tight text come off, and nothing else. */
  lemma Trims(a: string, s: string, b: string)
    requires Blank(a) && Blank(b) && Tight(s)
    ensures TrimWsp(a + (s + b)) == s
  {
    hide TrimWspStart, TrimWspEnd, Blank;
    if s == "" {
      AllBlank(a, b);
    } else {
      TrimsStart(a, s + b);
      TrimsEnd(s, b);
    }
  }

  lemma AllBlank(a: string, b: string)
    requires Blank(a) && Blank(b)
    ensures TrimWsp(a + ("" + b)) == ""
  {
    hide TrimWspStart, TrimWspEnd;
    var all := a + ("" + b);
    assert Blank(all) && all + "" == all;
    TrimsStart(all, "");
    TrimsEnd("", "");
    assert "" + "" == "";
  }

  lemma {:induction false} StartsBlank(s: string) returns (a: string)
    ensures Blank(a) && s == a + TrimWspStart(s) && (TrimWspStart(s) != "" ==> !IsBlank(TrimWspStart(s)[0]))
  {
    a := "";
    if s != "" && IsWsp(s[0]) {
      var rest := StartsBlank(s[1..]);
      a := [s[0]] + rest;
      assert s == [s[0]] + s[1..];
    }
  }

  lemma {:induction false} EndsBlank(s: string) returns (b: string)
    ensures Blank(b) && s == TrimWspEnd(s) + b && (TrimWspEnd(s) != "" ==> !IsBlank(TrimWspEnd(s)[|TrimWspEnd(s)| - 1]))
  {
    b := "";
    if s != "" && IsWsp(s[|s| - 1]) {
      var front := EndsBlank(s[..|s| - 1]);
      b := front + [s[|s| - 1]];
      assert s == s[..|s| - 1] + [s[|s| - 1]];
    }
  }

  /** Every text is a tight one with blanks around it. */
  lemma Dressed(s: string) returns (a: string, b: string)
    ensures Blank(a) && Blank(b) && Tight(TrimWsp(s)) && s == a + (TrimWsp(s) + b)
  {
    a := StartsBlank(s);
    b := EndsBlank(TrimWspStart(s));
    hide TrimWspStart, TrimWspEnd, Blank;
  }

  // ----- one parameter -----

  lemma ValueIsTight(value: string)
    requires forall k :: 0 <= k < |value| ==> '!' <= value[k] <= '~' && value[k] != ';'
    ensures Tight(value) && IsValue(value)
  {
  }

  /** A well-formed parameter sets the field its tag names. */
  lemma ItemReads(lower: Lowering, f: Fields, i: Item)
    requires WellFormed(lower, i)
    ensures Parameter(lower, f, Written(i)) == SetField(f, lower(i.tag), i.value)
  {
    ValueIsTight(i.value);
    var head := i.tag + i.left;
    var core := WholeTrims(lower, i);
    HeadHasNoEquals(i.tag, i.left);
    hide TrimWsp, SplitOnce, SetField, Blank, Tight, Without, IsValue;
    SplitOnceAt(head, core, '=');
    Trims("", i.tag, i.left);
    assert "" + (i.tag + i.left) == head;
  }

  lemma HeadHasNoEquals(tag: string, left: string)
    requires Without(tag, '=') && Blank(left)
    ensures Without(tag + left, '=')
  {
  }

  /** What is left of the parameter when its ends are trimmed: the value keeps its leading blanks. */
  lemma WholeTrims(lower: Lowering, i: Item) returns (core: string)
    requires WellFormed(lower, i)
    ensures TrimWsp(Written(i)) == (i.tag + i.left) + (['='] + core) && TrimWsp(core) == i.value
  {
    ValueIsTight(i.value);
    hide TrimWsp;
    var head := i.tag + i.left;
    if i.value == "" {
      core := "";
      var tail := i.right + i.after;
      assert Blank(tail);
      assert Written(i) == i.before + ((head + ['=']) + tail);
      Trims(i.before, head + ['='], tail);
      Trims("", "", "");
      assert "" + ("" + "") == "";
      assert head + ['='] == head + (['='] + core);
    } else {
      core := i.right + i.value;
      var all := head + (['='] + core);
      assert all[0] == i.tag[0] && all[|all| - 1] == i.value[|i.value| - 1];
      assert Written(i) == i.before + (all + i.after);
      Trims(i.before, all, i.after);
      Trims(i.right, i.value, "");
      assert i.value + "" == i.value;
    }
  }

  /** A parameter the parser takes is a well-formed one. */
  lemma ItemOf(lower: Lowering, f: Fields, part: string) returns (i: Item)
    requires LowersAscii(lower) && Parameter(lower, f, part).Ok? && Without(part, ';')
    ensures WellFormed(lower, i) && Written(i) == part
  {
    hide TrimWsp, SetField, Blank, Tight;
    var before, after := Dressed(part);
    var (tag, value) := SplitOnce(TrimWsp(part), '=').value;
    var open, left := Dressed(tag);
    var right, close := Dressed(value);
    i := Item(before + open, TrimWsp(tag), left, right, TrimWsp(value), close + after);
    Rebuilt(i, part, before, open, tag, value, close, after);
    NoEmptyTag(lower);
    hide Parameter, SplitOnce, LowersAscii;
    BlankJoins(before, open);
    BlankJoins(close, after);
    MiddleWithout(i, part);
    MiddleWithoutAny(open, i.tag, left, tag, '=');
  }

  lemma NoEmptyTag(lower: Lowering)
    requires LowersAscii(lower)
    ensures lower("") == ""
  {
    assert Ascii("") && Lower("") == "";
  }

  lemma BlankJoins(a: string, b: string)
    requires Blank(a) && Blank(b)
    ensures Blank(a + b)
  {
  }

  lemma Rebuilt(
    i: Item, part: string, before: string, open: string, tag: string, value: string, close: string, after: string)
    requires part == before + ((tag + (['='] + value)) + after)
    requires i.before == before + open && i.after == close + after
    requires tag == open + (i.tag + i.left) && value == i.right + (i.value + close)
    ensures Written(i) == part
  {
    assert Written(i) == before + (open + (i.tag + i.left)) + (['='] + (i.right + (i.value + close) + after));
    assert part == before + tag + (['='] + (value + after));
  }

  lemma MiddleWithout(i: Item, part: string)
    requires Written(i) == part && Without(part, ';')
    ensures Without(i.tag, ';') && Without(i.value, ';')
  {
    var n := |i.before|;
    var m := n + |i.tag| + |i.left| + 1 + |i.right|;
    assert forall k :: 0 <= k < |i.tag| ==> i.tag[k] == part[n + k];
    assert forall k :: 0 <= k < |i.value| ==> i.value[k] == part[m + k];
  }

  lemma MiddleWithoutAny(a: string, s: string, b: string, whole: string, c: char)
    requires whole == a + (s + b) && Without(whole, c)
    ensures Without(s, c)
  {
    assert forall k :: 0 <= k < |s| ==> s[k] == whole[|a| + k];
  }

  // ----- all of them -----

  /** The values given under a tag, in order. */
  function Values(lower: Lowering, items: seq<Item>, tag: string): seq<string> {
    if items == [] then []
    else
      var front, last := Values(lower, items[..|items| - 1], tag), items[|items| - 1];
      if lower(last.tag) == tag then front + [last.value] else front
  }

  function Only(values: seq<string>): Option<string> {
    if |values| == 1 then Some(values[0]) else None
  }

  /** The three parameters with a meaning occur at most once each, with a value of their kind. */
  predicate Fit(uris: seq<string>, policies: seq<string>, untils: seq<string>) {
    && |uris| <= 1 && |policies| <= 1 && |untils| <= 1
    && (uris != [] ==> uris[0] != "")
    && (untils != [] ==> ParseU64(untils[0]).Some?)
  }

  function FieldsOf(uris: seq<string>, policies: seq<string>, untils: seq<string>): Fields {
    Fields(Only(uris), Only(policies), if |untils| == 1 then ParseU64(untils[0]) else None)
  }

  lemma OneMore(uris: seq<string>, policies: seq<string>, untils: seq<string>, tag: string, value: string)
    requires Fit(uris, policies, untils)
    ensures var uris', policies', untils' :=
              if tag == "accounturi" then uris + [value] else uris,
              if tag == "policy" then policies + [value] else policies,
              if tag == "persistuntil" then untils + [value] else untils;
            SetField(FieldsOf(uris, policies, untils), tag, value)
            == if Fit(uris', policies', untils') then Ok(FieldsOf(uris', policies', untils')) else Err
  {
    hide ParseU64;
  }

  lemma NeverAgain(uris: seq<string>, policies: seq<string>, untils: seq<string>, tag: string, value: string)
    requires !Fit(uris, policies, untils)
    ensures !Fit(if tag == "accounturi" then uris + [value] else uris,
                 if tag == "policy" then policies + [value] else policies,
                 if tag == "persistuntil" then untils + [value] else untils)
  {
    hide ParseU64;
  }

  lemma {:induction false} ItemsRead(lower: Lowering, items: seq<Item>)
    requires forall k :: 0 <= k < |items| ==> WellFormed(lower, items[k])
    ensures var uris, policies, untils :=
              Values(lower, items, "accounturi"), Values(lower, items, "policy"), Values(lower, items, "persistuntil");
            Parameters(lower, Fields(None, None, None), AllWritten(items))
            == if Fit(uris, policies, untils) then Ok(FieldsOf(uris, policies, untils)) else Err
    decreases |items|
  {
    hide Parameter, SetField, ParseU64, Written, WellFormed;
    if items != [] {
      var front, last := items[..|items| - 1], items[|items| - 1];
      ItemsRead(lower, front);
      assert AllWritten(items)[..|items| - 1] == AllWritten(front);
      var start := Fields(None, None, None);
      var uris, policies, untils :=
        Values(lower, front, "accounturi"), Values(lower, front, "policy"), Values(lower, front, "persistuntil");
      ItemReads(lower, FieldsOf(uris, policies, untils), last);
      hide Fit, FieldsOf;
      if Fit(uris, policies, untils) {
        OneMore(uris, policies, untils, lower(last.tag), last.value);
      } else {
        NeverAgain(uris, policies, untils, lower(last.tag), last.value);
      }
    }
  }

  // ----- the record -----

  /** An issuer and its parameters, separated by semicolons. */
  function Record(a: string, issuer: string, b: string, items: seq<Item>): string {
    Join([a + (issuer + b)] + AllWritten(items), ';')
  }

  /** The record grants something: it names an issuer and just one account, and its other parameters fit. */
  predicate Grants(lower: Lowering, issuer: string, items: seq<Item>) {
    && issuer != ""
    && |Values(lower, items, "accounturi")| == 1
    && Fit(Values(lower, items, "accounturi"), Values(lower, items, "policy"), Values(lower, items, "persistuntil"))
  }

  ghost predicate WrittenOut(lower: Lowering, a: string, issuer: string, b: string, items: seq<Item>) {
    && Blank(a) && Blank(b) && Tight(issuer) && Without(issuer, ';')
    && forall k :: 0 <= k < |items| ==> WellFormed(lower, items[k])
  }

  lemma WrittenHasNoSemicolon(lower: Lowering, i: Item)
    requires WellFormed(lower, i)
    ensures Without(Written(i), ';')
  {
  }

  lemma RecordParts(lower: Lowering, a: string, issuer: string, b: string, items: seq<Item>)
    requires WrittenOut(lower, a, issuer, b, items)
    ensures Split(Record(a, issuer, b, items), ';') == [a + (issuer + b)] + AllWritten(items)
  {
    var parts := [a + (issuer + b)] + AllWritten(items);
    assert Without(parts[0], ';');
    hide Split, Without, Written;
    forall k | 0 <= k < |parts|
      ensures Without(parts[k], ';')
    {
      if k > 0 {
        WrittenHasNoSemicolon(lower, items[k - 1]);
      }
    }
    SplitJoin(parts, ';');
  }

  /** Whatever the order of the parameters, the case of their tags, the blanks around them and the
      unknown ones among them, the record reads as the one value given under each tag, and is
      refused exactly when it grants nothing. */
  lemma RecordReads(lower: Lowering, a: string, issuer: string, b: string, items: seq<Item>)
    requires WrittenOut(lower, a, issuer, b, items)
    ensures ParseSpec(lower, Record(a, issuer, b, items))
            == if !Grants(lower, issuer, items) then Err
               else
                 var untils := Values(lower, items, "persistuntil");
                 Ok(IssueValue(issuer, Values(lower, items, "accounturi")[0], Only(Values(lower, items, "policy")),
                               if untils == [] then None else ParseU64(untils[0])))
  {
    RecordParts(lower, a, issuer, b, items);
    ItemsRead(lower, items);
    Trims(a, issuer, b);
    hide Split, Record, Parameters, Values, TrimWsp, WellFormed, ParseU64;
    assert ([a + (issuer + b)] + AllWritten(items))[1..] == AllWritten(items);
  }

  /** And there are no other records: what the parser takes is so written. */
  lemma RecordOf(lower: Lowering, rdata: string) returns (a: string, issuer: string, b: string, items: seq<Item>)
    requires LowersAscii(lower) && ParseSpec(lower, rdata).Ok?
    ensures WrittenOut(lower, a, issuer, b, items) && rdata == Record(a, issuer, b, items)
  {
    hide Parameter, TrimWsp, Split, WellFormed, Written, Blank, Tight, LowersAscii;
    var parts := Split(rdata, ';');
    JoinSplit(rdata, ';');
    a, b := Dressed(parts[0]);
    issuer := TrimWsp(parts[0]);
    MiddleWithoutAny(a, issuer, b, parts[0], ';');
    items := ItemsOf(lower, Fields(None, None, None), parts[1..]);
    assert parts == [parts[0]] + parts[1..];
  }

  lemma {:induction false} ItemsOf(lower: Lowering, f: Fields, parts: seq<string>) returns (items: seq<Item>)
    requires LowersAscii(lower) && Parameters(lower, f, parts).Ok?
    requires forall k :: 0 <= k < |parts| ==> Without(parts[k], ';')
    ensures AllWritten(items) == parts && forall k :: 0 <= k < |items| ==> WellFormed(lower, items[k])
    decreases |parts|
  {
    hide Parameter, WellFormed, Written, Without, LowersAscii;
    items := [];
    if parts != [] {
      var front := parts[..|parts| - 1];
      items := ItemsOf(lower, f, front);
      var last := ItemOf(lower, Parameters(lower, f, front).value, parts[|parts| - 1]);
      items := items + [last];
      assert parts == front + [parts[|parts| - 1]];
    }
  }

  /** A record satisfies a requirement exactly when it grants something, its issuer folds to the
      required one, its one account is the required one, it has not expired, and a wildcard
      requirement meets a wildcard policy. */
  lemma RecordSatisfies(
    lower: Lowering, required: AuthorizationRecord, a: string, issuer: string, b: string, items: seq<Item>, now: nat)
    requires WrittenOut(lower, a, issuer, b, items)
    ensures var untils, policies := Values(lower, items, "persistuntil"), Values(lower, items, "policy");
            SatisfiedBy(lower, required, Record(a, issuer, b, items), now)
            <==> && Grants(lower, issuer, items)
                 && NormalizedIssuer(lower, issuer) == NormalizedIssuer(lower, required.issuer)
                 && Values(lower, items, "accounturi") == [required.accountUri]
                 && (untils != [] ==> now <= ParseU64(untils[0]).value)
                 && (required.wildcard ==> policies != [] && Lower(policies[0]) == "wildcard")
  {
    RecordReads(lower, a, issuer, b, items);
    hide ParseSpec, Record, Values, ParseU64, NormalizedIssuer, WrittenOut, Lower;
  }

  // ----- numbers -----

  function Digit(n: nat): char
    requires n < 10
  {
    "0123456789"[n]
  }

  function Decimal(n: nat): (s: string)
    ensures s != ""
  {
    if n < 10 then [Digit(n)] else Decimal(n / 10) + [Digit(n % 10)]
  }

  /** How a number may be written: a plus sign and leading zeros are allowed. */
  function Numeral(plus: bool, zeros: nat, n: nat): string {
    (if plus then "+" else "") + (seq(zeros, _ => '0') + Decimal(n))
  }

  lemma DigitIs(n: nat)
    requires n < 10
    ensures '0' <= Digit(n) <= '9' && Digit(n) as int - '0' as int == n
  {
  }

  lemma DigitOf(c: char) returns (d: nat)
    requires '0' <= c <= '9'
    ensures d < 10 && d == c as int - '0' as int && c == Digit(d)
  {
    d := c as int - '0' as int;
    DigitIs(d);
  }

  lemma LastDigit(s: string, m: nat, d: nat)
    requires Digits(s) == Some(m) && d < 10
    ensures Digits(s + [Digit(d)]) == Some(m * 10 + d)
  {
    DigitIs(d);
    hide Digit;
    assert (s + [Digit(d)])[..|s|] == s;
  }

  lemma {:induction false} ZerosRead(zeros: nat)
    ensures Digits(seq(zeros, _ => '0')) == Some(0)
  {
    if zeros > 0 {
      ZerosRead(zeros - 1);
      var s := seq(zeros, _ => '0');
      assert s[..zeros - 1] == seq(zeros - 1, _ => '0');
    }
  }

  lemma {:induction false} DecimalReads(zeros: nat, n: nat)
    ensures Digits(seq(zeros, _ => '0') + Decimal(n)) == Some(n)
    decreases n
  {
    hide Digits, Digit;
    var z := seq(zeros, _ => '0');
    if n < 10 {
      ZerosRead(zeros);
      LastDigit(z, 0, n);
    } else {
      DecimalReads(zeros, n / 10);
      LastDigit(z + Decimal(n / 10), n / 10, n % 10);
      assert z + Decimal(n) == z + Decimal(n / 10) + [Digit(n % 10)];
    }
  }

  lemma {:induction false} DigitsAreDecimal(s: string) returns (zeros: nat)
    requires s != "" && Digits(s).Some?
    ensures s == seq(zeros, _ => '0') + Decimal(Digits(s).value)
  {
    var front, c := s[..|s| - 1], s[|s| - 1];
    var d := DigitOf(c);
    assert s == front + [c];
    if front == "" {
      zeros := 0;
      assert Digits(s) == Some(d);
      assert seq(0, _ => '0') + [c] == s;
    } else {
      zeros := DigitsAreDecimal(front);
      var m := Digits(front).value;
      assert Digits(s) == Some(m * 10 + d);
      hide Digits, Digit;
      zeros := OneDigitMore(zeros, m, d);
    }
  }

  lemma OneDigitMore(zeros: nat, m: nat, d: nat) returns (zeros': nat)
    requires d < 10
    ensures seq(zeros, _ => '0') + Decimal(m) + [Digit(d)] == seq(zeros', _ => '0') + Decimal(m * 10 + d)
  {
    if m > 0 {
      zeros' := zeros;
      assert (m * 10 + d) / 10 == m && (m * 10 + d) % 10 == d;
      hide Digit;
      var z := seq(zeros, _ => '0');
      assert z + Decimal(m) + [Digit(d)] == z + (Decimal(m) + [Digit(d)]);
    } else {
      zeros' := zeros + 1;
      assert Decimal(m) == ['0'];
      assert seq(zeros', _ => '0') == seq(zeros, _ => '0') + ['0'];
    }
  }

  /** Every way of writing a number reads as it, below 2^64. */
  lemma NumeralReads(plus: bool, zeros: nat, n: nat)
    ensures ParseU64(Numeral(plus, zeros, n)) == if n < 18446744073709551616 then Some(n) else None
  {
    hide Digits, Decimal;
    DecimalReads(zeros, n);
    var digits, s := seq(zeros, _ => '0') + Decimal(n), Numeral(plus, zeros, n);
    if plus {
      assert s == "+" + digits && s[1..] == digits;
    } else {
      assert s == "" + digits == digits;
      StartsWithDigit(zeros, n);
    }
  }

  lemma {:induction false} StartsWithDigit(zeros: nat, n: nat)
    ensures var s := seq(zeros, _ => '0') + Decimal(n); s[0] != '+'
    decreases n
  {
    if zeros == 0 && n >= 10 {
      StartsWithDigit(0, n / 10);
      assert seq(0, _ => '0') + Decimal(n / 10) == Decimal(n / 10);
      assert seq(0, _ => '0') + Decimal(n) == Decimal(n);
    } else if zeros == 0 {
      DigitIs(n);
      assert seq(0, _ => '0') + Decimal(n) == Decimal(n);
    }
  }

  /** And nothing else reads as a number. */
  lemma NumeralOf(s: string) returns (plus: bool, zeros: nat)
    requires ParseU64(s).Some?
    ensures s == Numeral(plus, zeros, ParseU64(s).value)
  {
    hide Digits;
    plus := s[0] == '+';
    var digits := if plus then s[1..] else s;
    zeros := DigitsAreDecimal(digits);
    assert s == (if plus then "+" else "") + digits;
  }
}
