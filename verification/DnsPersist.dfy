/** The `dns-persist-01` authorization record: an issue-value (section 4.2 of RFC 8659). */
module DnsPersist {
  import opened Common
  import opened Text
  import opened Splitting

  const LETS_ENCRYPT_ISSUER_DOMAIN_NAME := "letsencrypt.org"

  // ----- issuer domain names -----

  /** `(ALPHA / DIGIT) *( *("-") (ALPHA / DIGIT) )`, at most 63 characters. */
  predicate IsLabel(l: string) {
    && 1 <= |l| <= 63
    && (forall i :: 0 <= i < |l| ==> IsAlphanumeric(l[i]) || l[i] == '-')
    && IsAlphanumeric(l[0]) && IsAlphanumeric(l[|l| - 1])
  }

  predicate IsIssuerName(name: string) {
    && 1 <= |name| <= 253
    && forall k :: 0 <= k < |Split(name, '.')| ==> IsLabel(Split(name, '.')[k])
  }

  function ResolveSpec(configured: string): Result<string> {
    var name := Trim(configured);
    if name == "" then Ok(LETS_ENCRYPT_ISSUER_DOMAIN_NAME)
    else if IsIssuerName(TrimDots(name)) then Ok(TrimDots(name))
    else Err
  }

  /** `resolve_issuer_domain_name`. */
  method ResolveIssuerDomainName(configured: string) returns (res: Result<string>)
    ensures res == ResolveSpec(configured)
  {
    hide Trim, TrimDots, Split, IsLabel;
    var name := Trim(configured);
    if name == "" {
      return Ok(LETS_ENCRYPT_ISSUER_DOMAIN_NAME);
    }
    name := TrimDots(name);
    if name == "" || |name| > 253 {
      return Err;
    }
    var labels := Split(name, '.');
    for k := 0 to |labels|
      invariant forall j :: 0 <= j < k ==> IsLabel(labels[j])
    {
      if !IsLabel(labels[k]) {
        return Err;
      }
    }
    return Ok(name);
  }

  // ----- rendering -----

  datatype AuthorizationRecord = AuthorizationRecord(issuer: string, accountUri: string, wildcard: bool)

  function Rdata(r: AuthorizationRecord): string {
    r.issuer + "; accounturi=" + r.accountUri + (if r.wildcard then "; policy=wildcard" else "")
  }

  // ----- parsing -----

  datatype IssueValue = IssueValue(
    issuer: string, accountUri: string, policy: Option<string>, persistUntil: Option<nat>)

  predicate IsWsp(c: char) {
    c == ' ' || c == '\t'
  }

  function TrimWspStart(s: string): string {
    if s != [] && IsWsp(s[0]) then TrimWspStart(s[1..]) else s
  }

  function TrimWspEnd(s: string): string {
    if s != [] && IsWsp(s[|s| - 1]) then TrimWspEnd(s[..|s| - 1]) else s
  }

  function TrimWsp(s: string): string {
    TrimWspEnd(TrimWspStart(s))
  }

  /** Printable ASCII except `;`. */
  predicate IsValueChar(c: char) {
    0x21 <= c as int <= 0x3a || 0x3c <= c as int <= 0x7e
  }

  predicate IsValue(s: string) {
    forall i :: 0 <= i < |s| ==> IsValueChar(s[i])
  }

  function Digits(s: string): Option<nat> {
    if s == [] then Some(0)
    else
      var front, c := Digits(s[..|s| - 1]), s[|s| - 1];
      if front.None? || !('0' <= c <= '9') then None else Some(front.value * 10 + (c as int - '0' as int))
  }

  /** `parse::<u64>`: an optional plus sign, digits, no overflow. */
  function ParseU64(s: string): Option<nat> {
    var digits := if s != [] && s[0] == '+' then s[1..] else s;
    if digits == [] || Digits(digits).None? || Digits(digits).value >= U64 then None else Digits(digits)
  }

  /** What the parameters read so far have set. */
  datatype Fields = Fields(accountUri: Option<string>, policy: Option<string>, persistUntil: Option<nat>)

  function SetField(f: Fields, tag: string, value: string): Result<Fields> {
    if tag == "accounturi" then
      if f.accountUri.Some? || value == "" then Err else Ok(f.(accountUri := Some(value)))
    else if tag == "policy" then
      if f.policy.Some? then Err else Ok(f.(policy := Some(value)))
    else if tag == "persistuntil" then
      if f.persistUntil.Some? || ParseU64(value).None? then Err else Ok(f.(persistUntil := ParseU64(value)))
    else Ok(f)
  }

  /** Lower-casing of Unicode text is a parameter. */
  type Lowering = string -> string

  predicate Ascii(s: string) {
    forall i :: 0 <= i < |s| ==> s[i] < 128 as char
  }

  /** On ASCII text it is the lower-casing of ASCII letters. */
  ghost predicate LowersAscii(lower: Lowering) {
    forall s :: Ascii(s) ==> lower(s) == Lower(s)
  }

  /** One `tag=value` parameter, blanks allowed around both halves. */
  function Parameter(lower: Lowering, f: Fields, part: string): Result<Fields> {
    match SplitOnce(TrimWsp(part), '=')
    case None => Err
    case Some((tag, value)) =>
      var tag := lower(TrimWsp(tag));
      if tag == "" || !IsValue(TrimWsp(value)) then Err else SetField(f, tag, TrimWsp(value))
  }

  function Parameters(lower: Lowering, f: Fields, parts: seq<string>): Result<Fields> {
    if parts == [] then Ok(f)
    else
      var front := Parameters(lower, f, parts[..|parts| - 1]);
      if front.Err? then Err else Parameter(lower, front.value, parts[|parts| - 1])
  }

  function ParseSpec(lower: Lowering, rdata: string): Result<IssueValue> {
    var parts := Split(rdata, ';');
    var issuer, fields := TrimWsp(parts[0]), Parameters(lower, Fields(None, None, None), parts[1..]);
    if issuer == "" || fields.Err? || fields.value.accountUri.None? then Err
    else Ok(IssueValue(issuer, fields.value.accountUri.value, fields.value.policy, fields.value.persistUntil))
  }

  lemma NextParameter(lower: Lowering, f: Fields, parts: seq<string>, k: nat)
    requires k < |parts|
    ensures Parameters(lower, f, parts[..k + 1])
            == if Parameters(lower, f, parts[..k]).Err? then Err
               else Parameter(lower, Parameters(lower, f, parts[..k]).value, parts[k])
  {
    hide Parameter;
    assert parts[..k + 1][..k] == parts[..k];
  }

  lemma {:induction false} SpoiledParameters(lower: Lowering, f: Fields, parts: seq<string>, k: nat)
    requires k <= |parts| && Parameters(lower, f, parts[..k]).Err?
    ensures Parameters(lower, f, parts).Err?
    decreases |parts| - k
  {
    hide Parameters, Parameter;
    if k < |parts| {
      NextParameter(lower, f, parts, k);
      SpoiledParameters(lower, f, parts, k + 1);
    } else {
      assert parts[..k] == parts;
    }
  }

  /** `IssueValue::parse`: a recognised tag may occur once, unknown tags are ignored. */
  method Parse(lower: Lowering, rdata: string) returns (res: Result<IssueValue>)
    ensures res == ParseSpec(lower, rdata)
  {
    hide Split, TrimWsp, Parameters, Parameter;
    var parts := Split(rdata, ';');
    var issuer := TrimWsp(parts[0]);
    if issuer == "" {
      return Err;
    }
    var fields := ParseParameters(lower, parts[1..]);
    if fields.Err? || fields.value.accountUri.None? {
      return Err;
    }
    return Ok(IssueValue(issuer, fields.value.accountUri.value, fields.value.policy, fields.value.persistUntil));
  }

  method ParseParameters(lower: Lowering, parts: seq<string>) returns (res: Result<Fields>)
    ensures res == Parameters(lower, Fields(None, None, None), parts)
  {
    hide TrimWsp, Parameters, Parameter;
    ghost var start := Fields(None, None, None);
    var f := Fields(None, None, None);
    var seen: seq<string> := [];
    NoParameters(lower, start);
    for k := 0 to |parts|
      invariant Parameters(lower, start, parts[..k]) == Ok(f) && Recorded(seen, f)
    {
      NextParameter(lower, start, parts, k);
      var next, seen' := ParseParameter(lower, f, seen, parts[k]);
      if next.Err? {
        SpoiledParameters(lower, start, parts, k + 1);
        return Err;
      }
      f, seen := next.value, seen';
    }
    assert parts[..|parts|] == parts;
    return Ok(f);
  }

  lemma NoParameters(lower: Lowering, f: Fields)
    ensures Parameters(lower, f, []) == Ok(f)
  {
  }

  /** The tags seen are those whose field is set. */
  predicate Recorded(seen: seq<string>, f: Fields) {
    && ("accounturi" in seen <==> f.accountUri.Some?)
    && ("policy" in seen <==> f.policy.Some?)
    && ("persistuntil" in seen <==> f.persistUntil.Some?)
  }

  method ParseParameter(lower: Lowering, f: Fields, seen: seq<string>, part: string)
    returns (res: Result<Fields>, seen': seq<string>)
    requires Recorded(seen, f)
    ensures res == Parameter(lower, f, part)
    ensures res.Ok? ==> Recorded(seen', res.value)
  {
    hide TrimWsp, SplitOnce, IsValue, ParseU64;
    var split := SplitOnce(TrimWsp(part), '=');
    if split.None? {
      return Err, seen;
    }
    var tag, value := lower(TrimWsp(split.value.0)), TrimWsp(split.value.1);
    if tag == "" || !IsValue(value) {
      return Err, seen;
    }
    res, seen' := RecordParameter(f, seen, tag, value);
  }

  method RecordParameter(f: Fields, seen: seq<string>, tag: string, value: string)
    returns (res: Result<Fields>, seen': seq<string>)
    requires Recorded(seen, f)
    ensures res == SetField(f, tag, value)
    ensures res.Ok? ==> Recorded(seen', res.value)
  {
    hide ParseU64;
    if tag != "accounturi" && tag != "policy" && tag != "persistuntil" {
      return Ok(f), seen;
    }
    if tag in seen {
      return Err, seen;
    }
    seen' := seen + [tag];
    if tag == "accounturi" {
      return if value == "" then Err else Ok(f.(accountUri := Some(value))), seen';
    }
    if tag == "policy" {
      return Ok(f.(policy := Some(value))), seen';
    }
    var until := ParseU64(value);
    return if until.None? then Err else Ok(f.(persistUntil := until)), seen';
  }

  // ----- rendering then parsing -----

  /** The records certbot renders: a resolved issuer and a non-empty URI of value characters. */
  predicate Renderable(r: AuthorizationRecord) {
    IsIssuerName(r.issuer) && r.accountUri != "" && IsValue(r.accountUri)
  }

  lemma TrimWspNothing(s: string)
    requires s != [] && !IsWsp(s[0]) && !IsWsp(s[|s| - 1])
    ensures TrimWsp(s) == s && TrimWsp(" " + s) == s
  {
    hide IsWsp;
    assert (" " + s)[1..] == s;
    BlankIsWsp();
    assert TrimWspStart(s) == s;
    assert TrimWspStart(" " + s) == TrimWspStart(s);
  }

  lemma BlankIsWsp()
    ensures IsWsp(' ')
  {
  }

  lemma ValueIsTrimmed(value: string)
    requires value != [] && IsValue(value)
    ensures !IsWsp(value[0]) && !IsWsp(value[|value| - 1]) && Without(value, ';')
  {
  }

  /** `tag=value` after a blank, with a lower-case tag. */
  lemma ParameterReads(lower: Lowering, f: Fields, tag: string, value: string)
    requires tag != "" && IsValue(tag) && Without(tag, '=') && lower(tag) == tag && value != "" && IsValue(value)
    ensures Parameter(lower, f, " " + (tag + (['='] + value))) == SetField(f, tag, value)
  {
    hide IsValue, SetField, TrimWsp, SplitOnce, IsWsp;
    ValueIsTrimmed(tag);
    ValueIsTrimmed(value);
    var s := tag + (['='] + value);
    assert s[0] == tag[0] && s[|s| - 1] == value[|value| - 1];
    TrimWspNothing(s);
    TrimWspNothing(tag);
    TrimWspNothing(value);
    SplitOnceAt(tag, value, '=');
  }

  /** An issuer name has no separator in it and nothing to trim. */
  lemma LabelsAreClean(name: string, c: char)
    requires forall k :: 0 <= k < |Split(name, '.')| ==> IsLabel(Split(name, '.')[k])
    requires !IsAlphanumeric(c) && c != '-' && c != '.'
    ensures Without(name, c) && name != []
    ensures IsAlphanumeric(name[0]) && IsAlphanumeric(name[|name| - 1])
  {
    hide IsAlphanumeric, Split;
    var parts := Split(name, '.');
    JoinSplit(name, '.');
    JoinIsClean(parts, c);
  }

  lemma {:induction false} JoinIsClean(parts: seq<string>, c: char)
    requires |parts| >= 1 && forall k :: 0 <= k < |parts| ==> IsLabel(parts[k])
    requires !IsAlphanumeric(c) && c != '-' && c != '.'
    ensures var name := Join(parts, '.');
            && name != [] && Without(name, c) && IsAlphanumeric(name[0]) && IsAlphanumeric(name[|name| - 1])
    decreases |parts|
  {
    hide IsAlphanumeric;
    assert IsLabel(parts[0]);
    if |parts| > 1 {
      JoinIsClean(parts[1..], c);
      var rest := Join(parts[1..], '.');
      hide Join;
      var name := parts[0] + (['.'] + rest);
      assert name[|name| - 1] == rest[|rest| - 1] && name[0] == parts[0][0];
    }
  }

  function Rendered(tag: string, value: string): string {
    " " + (tag + (['='] + value))
  }

  lemma AccountForm(a: string, uri: string)
    ensures a + "; accounturi=" + uri == a + ([';'] + Rendered("accounturi", uri))
  {
    assert [';'] + Rendered("accounturi", uri) == "; accounturi=" + uri;
  }

  lemma PolicyForm(a: string, u: string)
    ensures a + ([';'] + u) + "; policy=wildcard" == a + ([';'] + (u + ([';'] + Rendered("policy", "wildcard"))))
  {
    assert [';'] + Rendered("policy", "wildcard") == "; policy=wildcard";
  }

  lemma RdataForm(r: AuthorizationRecord)
    ensures Rdata(r) == r.issuer + ([';'] + (
              if r.wildcard then Rendered("accounturi", r.accountUri) + ([';'] + Rendered("policy", "wildcard"))
              else Rendered("accounturi", r.accountUri)))
  {
    hide Rendered;
    AccountForm(r.issuer, r.accountUri);
    PolicyForm(r.issuer, Rendered("accounturi", r.accountUri));
  }

  lemma RdataParts(r: AuthorizationRecord)
    requires Renderable(r)
    ensures Split(Rdata(r), ';')
            == [r.issuer, Rendered("accounturi", r.accountUri)]
               + (if r.wildcard then [Rendered("policy", "wildcard")] else [])
  {
    hide Split, Rdata, Rendered, IsIssuerName, IsValue;
    RdataForm(r);
    IssuerIsClean(r.issuer);
    TagsAreTags();
    RenderedHasNoSemicolon("accounturi", r.accountUri);
    RenderedHasNoSemicolon("policy", "wildcard");
    var uri, policy := Rendered("accounturi", r.accountUri), Rendered("policy", "wildcard");
    if r.wildcard {
      SplitLast(policy, ';');
      SplitFirst(uri, policy, ';');
      SplitFirst(r.issuer, uri + ([';'] + policy), ';');
    } else {
      SplitLast(uri, ';');
      SplitFirst(r.issuer, uri, ';');
    }
  }

  lemma IssuerIsClean(name: string)
    requires IsIssuerName(name)
    ensures Without(name, ';') && name != [] && TrimWsp(name) == name
  {
    hide Split, IsLabel;
    LabelsAreClean(name, ';');
    hide IsIssuerName, TrimWsp;
    TrimWspNothing(name);
  }

  lemma RenderedHasNoSemicolon(tag: string, value: string)
    requires (tag == "accounturi" || tag == "policy") && IsValue(value)
    ensures Without(Rendered(tag, value), ';')
  {
    assert Without(tag, ';') && Without(value, ';');
  }

  lemma TagsAreTags()
    ensures forall tag :: tag == "accounturi" || tag == "policy" ==>
              tag != "" && IsValue(tag) && Without(tag, '=') && Ascii(tag) && Lower(tag) == tag
    ensures IsValue("wildcard")
  {
  }

  /** Rendering then parsing recovers every field. */
  lemma RdataParses(lower: Lowering, r: AuthorizationRecord)
    requires Renderable(r) && LowersAscii(lower)
    ensures ParseSpec(lower, Rdata(r))
            == Ok(IssueValue(r.issuer, r.accountUri, if r.wildcard then Some("wildcard") else None, None))
  {
    hide Split, Rdata, Rendered, IsIssuerName, IsValue, Parameter, TrimWsp, Without, Lower, Ascii;
    RdataParts(r);
    IssuerIsClean(r.issuer);
    TagsAreTags();
    var uri, policy := Rendered("accounturi", r.accountUri), Rendered("policy", "wildcard");
    var start := Fields(None, None, None);
    var one := Fields(Some(r.accountUri), None, None);
    ParameterIs(lower, start, "accounturi", r.accountUri);
    ParameterIs(lower, one, "policy", "wildcard");
    var parts := Split(Rdata(r), ';')[1..];
    assert parts == [uri] + (if r.wildcard then [policy] else []);
    TwoParameters(lower, start, uri, policy);
  }

  lemma ParameterIs(lower: Lowering, f: Fields, tag: string, value: string)
    requires tag != "" && IsValue(tag) && Without(tag, '=') && lower(tag) == tag && value != "" && IsValue(value)
    ensures Parameter(lower, f, Rendered(tag, value)) == SetField(f, tag, value)
  {
    hide IsValue, SetField, Parameter;
    ParameterReads(lower, f, tag, value);
  }

  lemma TwoParameters(lower: Lowering, f: Fields, a: string, b: string)
    ensures Parameters(lower, f, [a]) == Parameter(lower, f, a)
    ensures Parameter(lower, f, a).Ok? ==>
              Parameters(lower, f, [a] + [b]) == Parameter(lower, Parameter(lower, f, a).value, b)
  {
    hide Parameter;
    assert [a][..0] == [] && ([a] + [b])[..1] == [a];
    assert Parameters(lower, f, []) == Ok(f);
  }

  // ----- what satisfies a requirement -----

  function NormalizedIssuer(lower: Lowering, name: string): string {
    lower(TrimDots(name))
  }

  predicate IsWildcardPolicy(policy: Option<string>) {
    policy.Some? && Lower(policy.value) == "wildcard"
  }

  /** `satisfied_by`. */
  predicate SatisfiedBy(lower: Lowering, r: AuthorizationRecord, rdata: string, now: nat) {
    var parsed := ParseSpec(lower, rdata);
    && parsed.Ok?
    && NormalizedIssuer(lower, parsed.value.issuer) == NormalizedIssuer(lower, r.issuer)
    && parsed.value.accountUri == r.accountUri
    && (parsed.value.persistUntil.Some? ==> now <= parsed.value.persistUntil.value)
    && (r.wildcard ==> IsWildcardPolicy(parsed.value.policy))
  }

  /** One record's rendering satisfies another's requirement exactly when the issuers match after
      folding, the URIs match byte for byte, and a wildcard requirement meets a wildcard record. */
  lemma RenderingSatisfies(
    lower: Lowering, published: AuthorizationRecord, required: AuthorizationRecord, now: nat)
    requires Renderable(published) && LowersAscii(lower)
    ensures SatisfiedBy(lower, required, Rdata(published), now)
            <==> && NormalizedIssuer(lower, published.issuer) == NormalizedIssuer(lower, required.issuer)
                 && published.accountUri == required.accountUri
                 && (required.wildcard ==> published.wildcard)
  {
    hide ParseSpec, Rdata, Renderable, NormalizedIssuer;
    RdataParses(lower, published);
    assert Lower("wildcard") == "wildcard";
  }

  // ----- resolving again -----

  /** A resolved name is an issuer name, and resolving it again changes nothing. */
  lemma ResolvedStays(configured: string)
    requires ResolveSpec(configured).Ok?
    ensures var name := ResolveSpec(configured).value; IsIssuerName(name) && ResolveSpec(name) == Ok(name)
  {
    var name := ResolveSpec(configured).value;
    DefaultIsIssuer();
    hide IsIssuerName, Trim, TrimDots;
    NameIsTrimmed(name);
  }

  lemma DefaultIsIssuer()
    ensures IsIssuerName("letsencrypt.org")
  {
    hide Split;
    var a, b := "letsencrypt", "org";
    SplitLast(b, '.');
    SplitFirst(a, b, '.');
    assert "letsencrypt.org" == a + (['.'] + b);
  }

  lemma NameIsTrimmed(name: string)
    requires IsIssuerName(name)
    ensures name != "" && Trim(name) == name && TrimDots(name) == name
  {
    hide Split, IsLabel;
    LabelsAreClean(name, ';');
    hide IsIssuerName;
    AlphanumericIsNoSpace(name[0]);
    AlphanumericIsNoSpace(name[|name| - 1]);
    hide IsSpace, IsAlphanumeric;
    assert TrimStart(name) == name && TrimEnd(name) == name;
  }

  lemma AlphanumericIsNoSpace(c: char)
    requires IsAlphanumeric(c)
    ensures !IsSpace(c) && c != '.'
  {
  }
}
