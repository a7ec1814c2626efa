/** Replacing a name's CAA issuer records without ever leaving it open to every CA. */
module Caa {
  import opened Common
  import opened DnsZone
  import opened CaaText
  import opened Splitting
  import opened Text

  // ----- what the records of a name mean (sections 4.2 and 4.3 of RFC 8659) -----

  predicate Issues(r: Record, name: string, tag: string) {
    At(r, name) && r.kind == "CAA" && CaaTag(r.content) == Some(tag)
  }

  predicate Issuer(r: Record, name: string) {
    Issues(r, name, "issue") || Issues(r, name, "issuewild")
  }

  /** A name without an `issue` record is open to every CA; likewise `issuewild` for wildcards. */
  ghost predicate Restricted(rs: Records, name: string, tag: string) {
    exists id :: id in rs && Issues(rs[id], name, tag)
  }

  /** The same as a CA reads tags, in letters of either case (section 4.1 of RFC 8659). */
  predicate IssuesFolded(r: Record, name: string, tag: string) {
    At(r, name) && r.kind == "CAA" && CaaTag(r.content).Some? && Lower(CaaTag(r.content).value) == Lower(tag)
  }

  ghost predicate RestrictedFolded(rs: Records, name: string, tag: string) {
    exists id :: id in rs && IssuesFolded(rs[id], name, tag)
  }

  /** No name loses its restriction, however the tag is spelled. */
  ghost predicate Keeps(before: Records, after: Records) {
    && (forall name, tag :: Restricted(before, name, tag) ==> Restricted(after, name, tag))
    && (forall name, tag :: RestrictedFolded(before, name, tag) ==> RestrictedFolded(after, name, tag))
  }

  ghost predicate Safe(s: Step) {
    && Keeps(s.before, s.after)
    && (s.call.Add? ==> !Duplicates(s.before, s.call.record))
  }

  ghost predicate AllSafe(steps: seq<Step>, from: nat) {
    forall i :: from <= i < |steps| ==> Safe(steps[i])
  }

  function IssuerIds(rs: Records, name: string): set<Id> {
    set id | id in rs && Issuer(rs[id], name)
  }

  /** The issuer records of `name` may differ; every other record is the same. */
  ghost predicate OthersKept(before: Records, after: Records, name: string) {
    && (forall id :: id in before && !Issuer(before[id], name) ==> id in after && after[id] == before[id])
    && (forall id :: id in after && !Issuer(after[id], name) ==> id in before && before[id] == after[id])
  }

  /** Exactly the two records of a finished replacement. Only tags spelled `issue` and `issuewild` are
      replaced: a record tagged `Issue`, which a CA reads as one more `issue` record, stays. */
  ghost predicate Finished(rs: Records, name: string, content: string) {
    exists i, j ::
      && i in rs && j in rs && i != j && IssuerIds(rs, name) == {i, j}
      && rs[i].content == Render("issue", content) && rs[j].content == Render("issuewild", content)
  }

  /** What a finished replacement says to a CA: every `issue` and `issuewild` record of the name permits
      the issuer for one validation method and one account, and nobody else; there is one of each. */
  lemma FinishedMeans(rs: Records, name: string, kind: ChallengeKind, issuer: string, accountUri: string, id: Id)
    requires Finished(rs, name, CaaContent(kind, issuer, accountUri))
    requires NoSpace(issuer) && NoSpace(accountUri) && Without(issuer, ';') && Without(accountUri, ';')
    requires id in rs && At(rs[id], name) && rs[id].kind == "CAA"
    requires |Words(rs[id].content)| >= 2 && Words(rs[id].content)[1] in ["issue", "issuewild"]
    ensures var words := Words(rs[id].content);
            && |words| == 3 && words[0] == "0" && |words[2]| >= 2
            && words[2] == "\"" + words[2][1..|words[2]| - 1] + "\""
            && Split(words[2][1..|words[2]| - 1], ';')
               == [issuer, "validationmethods=" + (if kind == Dns01 then "dns-01" else "dns-persist-01"),
                   "accounturi=" + accountUri]
    ensures forall other :: other in rs && Issuer(rs[other], name) && rs[other].content == rs[id].content ==> other == id
  {
    hide CaaContent, Words, Render, Split, NoSpace, Without, Finished, At, CaaTag;
    var value := CaaContent(kind, issuer, accountUri);
    ContentReads(kind, issuer, accountUri);
    ContentHasNoSpace(kind, issuer, accountUri);
    RenderedReads("issue", value);
    RenderedReads("issuewild", value);
    TagIs(rs[id].content);
    OneOfTwo(rs, name, value, id);
    var quoted := "\"" + value + "\"";
    assert quoted[1..|quoted| - 1] == value;
  }

  lemma TagIs(content: string)
    requires |Words(content)| >= 2
    ensures CaaTag(content) == Some(Words(content)[1])
  {
    hide Words;
  }

  lemma OneOfTwo(rs: Records, name: string, value: string, id: Id)
    requires Finished(rs, name, value) && id in rs && Issuer(rs[id], name)
    requires Render("issue", value) != Render("issuewild", value)
    ensures rs[id].content == Render("issue", value) || rs[id].content == Render("issuewild", value)
    ensures forall other :: other in rs && Issuer(rs[other], name) && rs[other].content == rs[id].content ==> other == id
  {
    hide Render, Issuer;
    var i, j :| && i in rs && j in rs && i != j && IssuerIds(rs, name) == {i, j}
                && rs[i].content == Render("issue", value) && rs[j].content == Render("issuewild", value);
    assert id in IssuerIds(rs, name);
    forall other | other in rs && Issuer(rs[other], name) && rs[other].content == rs[id].content
      ensures other == id
    {
      assert other in IssuerIds(rs, name);
    }
  }

  predicate GuardAt(rs: Records, name: string, id: Id, tag: string) {
    id in rs && Issues(rs[id], name, tag) && IsCaaGuard(rs[id].content)
  }

  // ----- single steps -----

  lemma AddIssuer(rs: Records, id: Id, r: Record, name: string)
    requires id !in rs && Issuer(r, name)
    ensures Keeps(rs, rs[id := r]) && OthersKept(rs, rs[id := r], name)
    ensures IssuerIds(rs[id := r], name) == IssuerIds(rs, name) + {id}
  {
    hide Issuer, Issues, IssuesFolded;
    var after := rs[id := r];
    forall n, t | Restricted(rs, n, t)
      ensures Restricted(after, n, t)
    {
      var k :| k in rs && Issues(rs[k], n, t);
      assert k in after && after[k] == rs[k];
    }
    forall n, t | RestrictedFolded(rs, n, t)
      ensures RestrictedFolded(after, n, t)
    {
      var k :| k in rs && IssuesFolded(rs[k], n, t);
      assert k in after && after[k] == rs[k];
    }
  }

  lemma RemoveIssuer(rs: Records, id: Id, keeper: Id, name: string, tag: string)
    requires id in rs && keeper in rs && id != keeper
    requires Issues(rs[id], name, tag) && Issues(rs[keeper], name, tag) && Issuer(rs[id], name)
    ensures Keeps(rs, rs - {id}) && OthersKept(rs, rs - {id}, name)
    ensures IssuerIds(rs - {id}, name) == IssuerIds(rs, name) - {id}
  {
    hide Issuer, CaaTag, Canon, Lower;
    var after := rs - {id};
    forall n, t | Restricted(rs, n, t)
      ensures Restricted(after, n, t)
    {
      var k :| k in rs && Issues(rs[k], n, t);
      if k == id {
        assert Issues(after[keeper], n, t);
      } else {
        assert Issues(after[k], n, t);
      }
    }
    forall n, t | RestrictedFolded(rs, n, t)
      ensures RestrictedFolded(after, n, t)
    {
      var k :| k in rs && IssuesFolded(rs[k], n, t);
      assert IssuesFolded(after[if k == id then keeper else k], n, t);
    }
  }

  lemma NothingChanges(rs: Records, name: string)
    ensures Keeps(rs, rs) && OthersKept(rs, rs, name)
  {
  }

  lemma OthersKeptTrans(a: Records, b: Records, c: Records, name: string)
    requires OthersKept(a, b, name) && OthersKept(b, c, name)
    ensures OthersKept(a, c, name)
  {
    hide Issuer;
  }

  /** What one phase of the replacement at `name` does to the zone. */
  ghost predicate Progress(rs: Records, steps: seq<Step>, rs': Records, steps': seq<Step>, name: string) {
    && steps <= steps'
    && AllSafe(steps', |steps|)
    && OthersKept(rs, rs', name)
  }

  lemma ProgressTrans(
    a: Records, s: seq<Step>, b: Records, t: seq<Step>, c: Records, u: seq<Step>, name: string)
    requires Progress(a, s, b, t, name) && Progress(b, t, c, u, name)
    ensures Progress(a, s, c, u, name)
  {
    hide Safe, OthersKept;
    OthersKeptTrans(a, b, c, name);
    forall i | |s| <= i < |u|
      ensures Safe(u[i])
    {
      if i < |t| {
        assert u[i] == t[i];
      }
    }
  }

  lemma OneStep(rs: Records, steps: seq<Step>, call: Call, fault: Fault, after: Records, name: string)
    requires Safe(Step(rs, call, fault, after)) && OthersKept(rs, after, name)
    ensures Progress(rs, steps, after, steps + [Step(rs, call, fault, after)], name)
  {
    hide Safe, OthersKept;
  }

  lemma NoStep(rs: Records, steps: seq<Step>, name: string)
    ensures Progress(rs, steps, rs, steps, name)
  {
    NothingChanges(rs, name);
  }

  // ----- the phases -----

  /** Phase 0: guards an earlier run left behind, one of each tag. */
  method AdoptGuards(zone: Zone, name: string) returns (res: Result<(Option<Id>, Option<Id>)>)
    modifies zone`script
    ensures res.Ok? ==> Adopted(zone.records, name, "issue", res.value.0)
    ensures res.Ok? ==> Adopted(zone.records, name, "issuewild", res.value.1)
    ensures old(zone.script) == [] ==> res.Ok? && zone.script == []
  {
    hide CaaTag, IsCaaGuard, Canon;
    var list := zone.GetRecords(name);
    if list.Err? {
      return Err;
    }
    var l := list.value;
    var issue: Option<Id>, issuewild: Option<Id> := None, None;
    for k := 0 to |l|
      invariant issue.Some? ==> GuardAt(zone.records, name, issue.value, "issue")
      invariant issue.None? ==> forall i :: 0 <= i < k ==> !GuardAt(zone.records, name, l[i].id, "issue")
      invariant issuewild.Some? ==> GuardAt(zone.records, name, issuewild.value, "issuewild")
      invariant issuewild.None? ==> forall i :: 0 <= i < k ==> !GuardAt(zone.records, name, l[i].id, "issuewild")
    {
      var r := l[k].record;
      if r.kind == "CAA" && IsCaaGuard(r.content) {
        if CaaTag(r.content) == Some("issue") {
          issue := if issue.None? then Some(l[k].id) else issue;
        } else if CaaTag(r.content) == Some("issuewild") {
          issuewild := if issuewild.None? then Some(l[k].id) else issuewild;
        }
      }
    }
    return Ok((issue, issuewild));
  }

  ghost predicate Adopted(rs: Records, name: string, tag: string, adopted: Option<Id>) {
    && (adopted.Some? ==> GuardAt(rs, name, adopted.value, tag))
    && (adopted.None? ==> forall id :: !GuardAt(rs, name, id, tag))
  }

  /** A safe add of an issuer record: nothing like it is there yet. */
  method AddCaa(zone: Zone, name: string, tag: string, value: string) returns (res: Result<Id>)
    requires zone.Valid() && (tag == "issue" || tag == "issuewild")
    requires !Duplicates(zone.records, Record(name, "CAA", Render(tag, value)))
    modifies zone
    ensures zone.Valid() && Progress(old(zone.records), old(zone.steps), zone.records, zone.steps, name)
    ensures || zone.records == old(zone.records)
            || AddedTo(old(zone.records), zone.records, old(zone.nextId), name, tag, value)
    ensures res.Ok? ==> res.value == old(zone.nextId)
                        && AddedTo(old(zone.records), zone.records, res.value, name, tag, value)
    ensures old(zone.script) == [] ==> res.Ok? && zone.script == []
  {
    hide CaaTag, IsCaaGuard, Canon, Render, Duplicates, Chained, Progress, Keeps, OthersKept, IssuerIds;
    var r := Record(name, "CAA", Render(tag, value));
    RenderedTag(tag, value);
    ghost var rs, id := zone.records, zone.nextId;
    AddIssuer(rs, id, r, name);
    NothingChanges(rs, name);
    res := zone.AddRecord(r);
    OneStep(rs, old(zone.steps), Add(r), FaultAt(old(zone.script), 0), zone.records, name);
  }

  ghost predicate AddedTo(before: Records, after: Records, id: Id, name: string, tag: string, value: string) {
    && id !in before
    && after == before[id := Record(name, "CAA", Render(tag, value))]
    && Issues(Record(name, "CAA", Render(tag, value)), name, tag)
    && IssuerIds(after, name) == IssuerIds(before, name) + {id}
  }

  /** A safe removal of an issuer record: another of the same tag stays. */
  method RemoveCaa(zone: Zone, name: string, tag: string, id: Id, ghost keeper: Id) returns (res: Result<()>)
    requires zone.Valid() && id in zone.records && keeper in zone.records && id != keeper
    requires (tag == "issue" || tag == "issuewild")
    requires Issues(zone.records[id], name, tag) && Issues(zone.records[keeper], name, tag)
    modifies zone
    ensures zone.Valid() && Progress(old(zone.records), old(zone.steps), zone.records, zone.steps, name)
    ensures zone.records == old(zone.records) || zone.records == old(zone.records) - {id}
    ensures res.Ok? ==> zone.records == old(zone.records) - {id}
                        && IssuerIds(zone.records, name) == IssuerIds(old(zone.records), name) - {id}
    ensures old(zone.script) == [] ==> res.Ok? && zone.script == []
  {
    hide CaaTag, Canon, Chained, Progress, Keeps, OthersKept, IssuerIds;
    ghost var rs := zone.records;
    RemoveIssuer(rs, id, keeper, name, tag);
    NothingChanges(rs, name);
    res := zone.RemoveRecord(id);
    OneStep(rs, old(zone.steps), Remove(id), FaultAt(old(zone.script), 0), zone.records, name);
  }

  /** Only records restricting `name` by `tag` are new. */
  ghost predicate Grows(before: Records, after: Records, name: string, tag: string) {
    && (forall id :: id in before ==> id in after && after[id] == before[id])
    && (forall id :: id in after && id !in before ==> Issues(after[id], name, tag))
  }

  lemma NoGuardNoDuplicate(rs: Records, name: string, tag: string)
    requires (tag == "issue" || tag == "issuewild") && Adopted(rs, name, tag, None)
    ensures !Duplicates(rs, Record(name, "CAA", Render(tag, ";")))
  {
    hide CaaTag, IsCaaGuard, Canon, Render;
    RenderedTag(tag, ";");
    GuardIsGuard(tag);
    var r := Record(name, "CAA", Render(tag, ";"));
    forall id | id in rs
      ensures !SameRecord(rs[id], r)
    {
      assert !GuardAt(rs, name, id, tag);
    }
  }

  /** Phase 1: a record denying every issuer, adopted or new. */
  method SetGuard(zone: Zone, name: string, tag: string, adopted: Option<Id>) returns (res: Result<Id>)
    requires zone.Valid() && (tag == "issue" || tag == "issuewild")
    requires Adopted(zone.records, name, tag, adopted)
    modifies zone
    ensures zone.Valid() && Progress(old(zone.records), old(zone.steps), zone.records, zone.steps, name)
    ensures Grows(old(zone.records), zone.records, name, tag)
    ensures res.Ok? ==> GuardAt(zone.records, name, res.value, tag)
    ensures old(zone.script) == [] ==> res.Ok? && zone.script == []
  {
    hide CaaTag, IsCaaGuard, Canon, Render, Duplicates, Progress, IssuerIds, Issues;
    if adopted.Some? {
      NoStep(zone.records, zone.steps, name);
      return Ok(adopted.value);
    }
    NoGuardNoDuplicate(zone.records, name, tag);
    GuardIsGuard(tag);
    res := AddCaa(zone, name, tag, ";");
  }

  lemma StillUnguarded(before: Records, after: Records, name: string, tag: string, other: string, adopted: Option<Id>)
    requires Grows(before, after, name, tag) && tag != other && Adopted(before, name, other, adopted)
    ensures Adopted(after, name, other, adopted)
  {
    hide CaaTag, IsCaaGuard, Canon;
    forall id | adopted.None?
      ensures !GuardAt(after, name, id, other)
    {
      assert !GuardAt(before, name, id, other);
    }
  }

  /** Phase 2: every other issuer record goes, while the guards stay. */
  method RemoveOthers(zone: Zone, name: string, guard0: Id, guard1: Id) returns (res: Result<()>)
    requires zone.Valid()
    requires GuardAt(zone.records, name, guard0, "issue") && GuardAt(zone.records, name, guard1, "issuewild")
    modifies zone
    ensures zone.Valid() && Progress(old(zone.records), old(zone.steps), zone.records, zone.steps, name)
    ensures GuardAt(zone.records, name, guard0, "issue") && GuardAt(zone.records, name, guard1, "issuewild")
    ensures res.Ok? ==> IssuerIds(zone.records, name) == {guard0, guard1}
    ensures old(zone.script) == [] ==> res.Ok? && zone.script == []
  {
    hide CaaTag, IsCaaGuard, Canon, Progress, Chained, Lists, Remaining, GuardAt, IssuerIds;
    NoStep(zone.records, zone.steps, name);
    var list := zone.GetRecords(name);
    if list.Err? {
      return Err;
    }
    var l := list.value;
    OtherIssuersListed(l, zone.records, name, guard0, guard1);
    for k := 0 to |l|
      invariant zone.Valid() && Progress(old(zone.records), old(zone.steps), zone.records, zone.steps, name)
      invariant GuardAt(zone.records, name, guard0, "issue") && GuardAt(zone.records, name, guard1, "issuewild")
      invariant Remaining(l, k, zone.records, OtherIssuer(name, guard0, guard1))
      invariant old(zone.script) == [] ==> zone.script == []
    {
      ghost var before, steps := zone.records, zone.steps;
      var removed := RemoveListed(zone, name, l, k, guard0, guard1);
      ProgressTrans(old(zone.records), old(zone.steps), before, steps, zone.records, zone.steps, name);
      if removed.Err? {
        return Err;
      }
    }
    AllRemoved(zone.records, name, l, guard0, guard1);
    return Ok(());
  }

  method RemoveListed(zone: Zone, name: string, l: seq<Listed>, k: nat, guard0: Id, guard1: Id)
    returns (res: Result<()>)
    requires zone.Valid() && k < |l| && At(l[k].record, name)
    requires Remaining(l, k, zone.records, OtherIssuer(name, guard0, guard1))
    requires GuardAt(zone.records, name, guard0, "issue") && GuardAt(zone.records, name, guard1, "issuewild")
    modifies zone
    ensures zone.Valid() && Progress(old(zone.records), old(zone.steps), zone.records, zone.steps, name)
    ensures GuardAt(zone.records, name, guard0, "issue") && GuardAt(zone.records, name, guard1, "issuewild")
    ensures res.Ok? ==> Remaining(l, k + 1, zone.records, OtherIssuer(name, guard0, guard1))
    ensures old(zone.script) == [] ==> res.Ok? && zone.script == []
  {
    hide CaaTag, IsCaaGuard, Canon, Progress, Chained, IssuerIds;
    var id, r := l[k].id, l[k].record;
    if id != guard0 && id != guard1 && r.kind == "CAA" && IsIssuerTag(CaaTag(r.content)) {
      ListedRemoved(l, k, zone.records, OtherIssuer(name, guard0, guard1));
      var tag := CaaTag(r.content).value;
      res := RemoveCaa(zone, name, tag, id, if tag == "issue" then guard0 else guard1);
    } else {
      NoStep(zone.records, zone.steps, name);
      ListedStays(l, k, zone.records, OtherIssuer(name, guard0, guard1));
      return Ok(());
    }
  }

  /** An issuer record other than the guards. */
  function OtherIssuer(name: string, guard0: Id, guard1: Id): Listed -> bool {
    (x: Listed) => Issuer(x.record, name) && x.id != guard0 && x.id != guard1
  }

  lemma OtherIssuersListed(l: seq<Listed>, rs: Records, name: string, guard0: Id, guard1: Id)
    requires Lists(l, rs, name)
    ensures Remaining(l, 0, rs, OtherIssuer(name, guard0, guard1))
    ensures forall k :: 0 <= k < |l| ==> At(l[k].record, name)
  {
    hide CaaTag, Canon, Remaining;
    ListBegins(l, rs, name, OtherIssuer(name, guard0, guard1));
  }

  lemma AllRemoved(rs: Records, name: string, l: seq<Listed>, guard0: Id, guard1: Id)
    requires Remaining(l, |l|, rs, OtherIssuer(name, guard0, guard1))
    requires GuardAt(rs, name, guard0, "issue") && GuardAt(rs, name, guard1, "issuewild")
    ensures IssuerIds(rs, name) == {guard0, guard1}
  {
    hide CaaTag, IsCaaGuard, Canon;
    forall id | id in rs && Issuer(rs[id], name)
      ensures id == guard0 || id == guard1
    {
      assert !OtherIssuer(name, guard0, guard1)(Listed(id, rs[id]));
    }
  }

  /** The new records are unlike anything that is there. */
  predicate NoGuardContent(content: string) {
    !IsCaaGuard(Render("issue", content)) && !IsCaaGuard(Render("issuewild", content))
  }

  lemma NewContentNoDuplicate(rs: Records, name: string, tag: string, content: string)
    requires (tag == "issue" || tag == "issuewild") && NoGuardContent(content)
    requires forall id :: id in IssuerIds(rs, name) && Issues(rs[id], name, tag) ==> IsCaaGuard(rs[id].content)
    ensures !Duplicates(rs, Record(name, "CAA", Render(tag, content)))
  {
    hide CaaTag, IsCaaGuard, Canon, Render;
    RenderedTag(tag, content);
    var r := Record(name, "CAA", Render(tag, content));
    forall id | id in rs
      ensures !SameRecord(rs[id], r)
    {
      assert id in IssuerIds(rs, name) <==> Issuer(rs[id], name);
    }
  }

  /** The issuer records of `name` are the guards and the new ones. */
  ghost predicate Installed(rs: Records, name: string, content: string, guard0: Id, guard1: Id, new0: Id, new1: Id) {
    && GuardAt(rs, name, guard0, "issue") && GuardAt(rs, name, guard1, "issuewild")
    && new0 in rs && Issues(rs[new0], name, "issue") && rs[new0].content == Render("issue", content)
    && new1 in rs && Issues(rs[new1], name, "issuewild") && rs[new1].content == Render("issuewild", content)
    && IssuerIds(rs, name) == {guard0, guard1, new0, new1}
    && new0 != new1 && guard0 != new0 && guard1 != new1 && guard0 != new1 && guard1 != new0
  }

  /** Phase 3: the new constraints, beside the guards. */
  method Install(zone: Zone, name: string, content: string, guard0: Id, guard1: Id) returns (res: Result<(Id, Id)>)
    requires zone.Valid() && NoGuardContent(content)
    requires GuardAt(zone.records, name, guard0, "issue") && GuardAt(zone.records, name, guard1, "issuewild")
    requires IssuerIds(zone.records, name) == {guard0, guard1}
    modifies zone
    ensures zone.Valid() && Progress(old(zone.records), old(zone.steps), zone.records, zone.steps, name)
    ensures res.Ok? ==> Installed(zone.records, name, content, guard0, guard1, res.value.0, res.value.1)
    ensures old(zone.script) == [] ==> res.Ok? && zone.script == []
  {
    hide CaaTag, IsCaaGuard, Canon, Render, Progress, Chained, Duplicates, IssuerIds;
    NewContentNoDuplicate(zone.records, name, "issue", content);
    var issue := AddCaa(zone, name, "issue", content);
    if issue.Err? {
      return Err;
    }
    ghost var rs, steps := zone.records, zone.steps;
    NewContentNoDuplicate(rs, name, "issuewild", content);
    var issuewild := AddCaa(zone, name, "issuewild", content);
    ProgressTrans(old(zone.records), old(zone.steps), rs, steps, zone.records, zone.steps, name);
    if issuewild.Err? {
      return Err;
    }
    return Ok((issue.value, issuewild.value));
  }

  /** Phase 4: the guards go, now that the new constraints stand. */
  method RemoveGuards(zone: Zone, name: string, content: string, guard0: Id, guard1: Id, ghost new0: Id, ghost new1: Id)
    returns (res: Result<()>)
    requires zone.Valid() && Installed(zone.records, name, content, guard0, guard1, new0, new1)
    modifies zone
    ensures zone.Valid() && Progress(old(zone.records), old(zone.steps), zone.records, zone.steps, name)
    ensures res.Ok? ==> Finished(zone.records, name, content)
    ensures old(zone.script) == [] ==> res.Ok? && zone.script == []
  {
    hide CaaTag, IsCaaGuard, Canon, Render, Progress, Chained, IssuerIds;
    res := RemoveCaa(zone, name, "issue", guard0, new0);
    if res.Err? {
      return Err;
    }
    ghost var rs, steps := zone.records, zone.steps;
    res := RemoveCaa(zone, name, "issuewild", guard1, new1);
    ProgressTrans(old(zone.records), old(zone.steps), rs, steps, zone.records, zone.steps, name);
    if res.Ok? {
      assert IssuerIds(zone.records, name) == {new0, new1};
    }
  }

  // ----- one name, all names, all runs -----

  method ReplaceCaa(zone: Zone, name: string, content: string) returns (res: Result<()>)
    requires zone.Valid() && NoGuardContent(content)
    modifies zone
    ensures zone.Valid() && Progress(old(zone.records), old(zone.steps), zone.records, zone.steps, name)
    ensures res.Ok? ==> Finished(zone.records, name, content)
    ensures old(zone.script) == [] ==> res.Ok? && zone.script == []
  {
    hide CaaTag, IsCaaGuard, Canon, Render, Progress, Chained, IssuerIds, Installed, Finished, GuardAt, Grows, Adopted;
    var guards := PlaceGuards(zone, name);
    if guards.Err? {
      return Err;
    }
    ghost var rs, steps := zone.records, zone.steps;
    res := RemoveOthers(zone, name, guards.value.0, guards.value.1);
    ProgressTrans(old(zone.records), old(zone.steps), rs, steps, zone.records, zone.steps, name);
    if res.Err? {
      return Err;
    }
    rs, steps := zone.records, zone.steps;
    var installed := Install(zone, name, content, guards.value.0, guards.value.1);
    ProgressTrans(old(zone.records), old(zone.steps), rs, steps, zone.records, zone.steps, name);
    if installed.Err? {
      return Err;
    }
    rs, steps := zone.records, zone.steps;
    res := RemoveGuards(zone, name, content, guards.value.0, guards.value.1, installed.value.0, installed.value.1);
    ProgressTrans(old(zone.records), old(zone.steps), rs, steps, zone.records, zone.steps, name);
  }

  /** Phases 0 and 1. */
  method PlaceGuards(zone: Zone, name: string) returns (res: Result<(Id, Id)>)
    requires zone.Valid()
    modifies zone
    ensures zone.Valid() && Progress(old(zone.records), old(zone.steps), zone.records, zone.steps, name)
    ensures res.Ok? ==> GuardAt(zone.records, name, res.value.0, "issue")
                        && GuardAt(zone.records, name, res.value.1, "issuewild")
    ensures old(zone.script) == [] ==> res.Ok? && zone.script == []
  {
    hide CaaTag, IsCaaGuard, Canon, Progress, Chained, Adopted;
    NoStep(zone.records, zone.steps, name);
    var adopted := AdoptGuards(zone, name);
    if adopted.Err? {
      return Err;
    }
    ghost var rs0 := zone.records;
    var guard0 := SetGuard(zone, name, "issue", adopted.value.0);
    if guard0.Err? {
      return Err;
    }
    ghost var rs, steps := zone.records, zone.steps;
    StillUnguarded(rs0, rs, name, "issue", "issuewild", adopted.value.1);
    var guard1 := SetGuard(zone, name, "issuewild", adopted.value.1);
    ProgressTrans(old(zone.records), old(zone.steps), rs, steps, zone.records, zone.steps, name);
    if guard1.Err? {
      return Err;
    }
    return Ok((guard0.value, guard1.value));
  }

  function BaseName(domain: string): string {
    if "*." <= domain then domain[2..] else domain
  }

  lemma BaseNameIs(domain: string)
    ensures BaseName("*." + domain) == domain
    ensures |domain| < 2 || domain[0] != '*' || domain[1] != '.' ==> BaseName(domain) == domain
  {
    assert ("*." + domain)[2..] == domain;
  }

  /** A wildcard name shares the records of its base name. */
  function BaseNames(domains: seq<string>): set<string> {
    set d | d in domains :: BaseName(d)
  }

  /** The issuer records of `names` may differ; every other record is the same. */
  ghost predicate OutsideKept(before: Records, after: Records, names: set<string>) {
    && (forall id :: id in before && NoIssuer(before[id], names) ==> id in after && after[id] == before[id])
    && (forall id :: id in after && NoIssuer(after[id], names) ==> id in before && before[id] == after[id])
  }

  predicate NoIssuer(r: Record, names: set<string>) {
    forall name :: name in names ==> !Issuer(r, name)
  }

  lemma OutsideOne(a: Records, b: Records, c: Records, name: string, names: set<string>)
    requires OutsideKept(a, b, names) && OthersKept(b, c, name) && name in names
    ensures OutsideKept(a, c, names)
  {
    hide Issuer;
  }

  lemma FinishedKept(before: Records, after: Records, done: string, name: string, content: string)
    requires Finished(before, done, content) && OthersKept(before, after, name) && Finished(after, name, content)
    ensures Finished(after, done, content)
  {
    hide CaaTag, Canon, Render;
    if Canon(done) == Canon(name) {
      assert IssuerIds(after, done) == IssuerIds(after, name);
    } else {
      assert IssuerIds(after, done) == IssuerIds(before, done);
    }
  }

  lemma AllSafeGrows(s: seq<Step>, t: seq<Step>, u: seq<Step>)
    requires s <= t <= u && AllSafe(t, |s|) && AllSafe(u, |t|)
    ensures AllSafe(u, |s|)
  {
    hide Safe;
    assert forall i :: 0 <= i < |t| ==> u[i] == t[i];
  }

  /** `set_caa_records`: every base name in turn, stopping at the first failed call. */
  method SetCaaRecords(zone: Zone, kind: ChallengeKind, issuer: string, accountUri: string, domains: seq<string>)
    returns (res: Result<()>)
    requires zone.Valid()
    modifies zone
    ensures zone.Valid() && old(zone.steps) <= zone.steps && AllSafe(zone.steps, |old(zone.steps)|)
    ensures OutsideKept(old(zone.records), zone.records, BaseNames(domains))
    ensures res.Ok? ==> forall d :: d in domains ==>
                          Finished(zone.records, BaseName(d), CaaContent(kind, issuer, accountUri))
    ensures old(zone.script) == [] ==> res.Ok? && zone.script == []
    ensures forall id :: id in old(zone.records) && old(zone.records)[id].kind != "CAA" ==>
              id in zone.records && zone.records[id] == old(zone.records)[id]
  {
    hide CaaTag, IsCaaGuard, Canon, Render, CaaContent, Finished, OthersKept, Chained, OutsideKept, AllSafe, BaseName;
    var content := CaaContent(kind, issuer, accountUri);
    ContentIsNoGuard("issue", kind, issuer, accountUri);
    ContentIsNoGuard("issuewild", kind, issuer, accountUri);
    NothingOutside(zone.records, zone.steps, BaseNames(domains));
    var left := BaseNames(domains);
    while left != {}
      invariant left <= BaseNames(domains)
      invariant zone.Valid() && old(zone.steps) <= zone.steps && AllSafe(zone.steps, |old(zone.steps)|)
      invariant OutsideKept(old(zone.records), zone.records, BaseNames(domains))
      invariant forall name :: name in BaseNames(domains) && name !in left ==> Finished(zone.records, name, content)
      invariant old(zone.script) == [] ==> zone.script == []
      decreases |left|
    {
      var name :| name in left;
      ghost var rs, steps := zone.records, zone.steps;
      res := ReplaceCaa(zone, name, content);
      OutsideOne(old(zone.records), rs, zone.records, name, BaseNames(domains));
      AllSafeGrows(old(zone.steps), steps, zone.steps);
      if res.Err? {
        OtherKindsStay(old(zone.records), zone.records, BaseNames(domains));
        return Err;
      }
      forall done | done in BaseNames(domains) && done !in left
        ensures Finished(zone.records, done, content)
      {
        FinishedKept(rs, zone.records, done, name, content);
      }
      left := left - {name};
    }
    OtherKindsStay(old(zone.records), zone.records, BaseNames(domains));
    return Ok(());
  }

  lemma OtherKindsStay(before: Records, after: Records, names: set<string>)
    requires OutsideKept(before, after, names)
    ensures forall id :: id in before && before[id].kind != "CAA" ==> id in after && after[id] == before[id]
  {
    hide At, CaaTag;
  }

  lemma NothingOutside(rs: Records, steps: seq<Step>, names: set<string>)
    ensures OutsideKept(rs, rs, names) && AllSafe(steps, |steps|)
  {
  }

  datatype Run = Run(kind: ChallengeKind, issuer: string, accountUri: string, domains: seq<string>)

  /** Any number of runs, each stopped wherever a call failed, each with its own content. */
  method RunAll(zone: Zone, runs: seq<Run>)
    requires zone.Valid()
    modifies zone
    ensures zone.Valid() && old(zone.steps) <= zone.steps && AllSafe(zone.steps, |old(zone.steps)|)
  {
    hide Safe, Chained;
    for i := 0 to |runs|
      invariant zone.Valid() && old(zone.steps) <= zone.steps && AllSafe(zone.steps, |old(zone.steps)|)
    {
      ghost var steps := zone.steps;
      var _ := SetCaaRecords(zone, runs[i].kind, runs[i].issuer, runs[i].accountUri, runs[i].domains);
      AllSafeGrows(old(zone.steps), steps, zone.steps);
    }
  }

  /** Over such steps, a name that is restricted at some moment is restricted at every later one. */
  lemma {:induction false} RestrictionLasts(steps: seq<Step>, from: nat, i: nat, j: nat, name: string, tag: string)
    requires Chained(steps) && AllSafe(steps, from) && from <= i <= j < |steps|
    ensures Restricted(steps[i].before, name, tag) ==>
              Restricted(steps[j].before, name, tag) && Restricted(steps[j].after, name, tag)
    ensures RestrictedFolded(steps[i].before, name, tag) ==>
              RestrictedFolded(steps[j].before, name, tag) && RestrictedFolded(steps[j].after, name, tag)
    decreases j
  {
    hide Restricted, RestrictedFolded;
    if i < j {
      RestrictionLasts(steps, from, i, j - 1, name, tag);
      assert steps[j - 1].after == steps[j].before;
    }
    assert Safe(steps[j]);
  }

  // ----- a tag in other letters -----

  /** A record tagged `Issue` restricts the name, as a CA reads it, and every replacement leaves it. */
  lemma OtherCaseStays(before: Records, after: Records, names: set<string>, id: Id, name: string, value: string)
    requires OutsideKept(before, after, names)
    requires id in before && before[id] == Record(name, "CAA", Render("Issue", value))
    ensures id in after && after[id] == before[id] && IssuesFolded(after[id], name, "issue")
  {
    hide Canon, Render, OutsideKept, CaaTag;
    RenderedTag("Issue", value);
    FoldedIssue();
    NoIssuerAnywhere(before[id], names);
    KeptOutside(before, after, names, id);
  }

  lemma FoldedIssue()
    ensures Lower("Issue") == Lower("issue")
  {
  }

  lemma NoIssuerAnywhere(r: Record, names: set<string>)
    requires CaaTag(r.content) == Some("Issue")
    ensures NoIssuer(r, names)
  {
    hide CaaTag, Canon;
  }

  lemma KeptOutside(before: Records, after: Records, names: set<string>, id: Id)
    requires OutsideKept(before, after, names) && id in before && NoIssuer(before[id], names)
    ensures id in after && after[id] == before[id]
  {
    hide NoIssuer;
  }

  /** A run over such a zone: it finishes, and the record is still there. */
  method OtherCaseRun(kind: ChallengeKind, issuer: string, accountUri: string, name: string, value: string)
    returns (zone: Zone)
    ensures fresh(zone) && Finished(zone.records, BaseName(name), CaaContent(kind, issuer, accountUri))
    ensures 0 in zone.records && zone.records[0] == Record(BaseName(name), "CAA", Render("Issue", value))
    ensures IssuesFolded(zone.records[0], BaseName(name), "issue")
  {
    hide Finished, OutsideKept, AllSafe, Chained, CaaContent, Render, BaseName, IssuesFolded;
    ghost var records: Records := map[0 := Record(BaseName(name), "CAA", Render("Issue", value))];
    zone := new Zone(true, map[0 := Record(BaseName(name), "CAA", Render("Issue", value))], 1, []);
    var res := SetCaaRecords(zone, kind, issuer, accountUri, [name]);
    assert name in [name];
    OtherCaseStays(records, zone.records, BaseNames([name]), 0, BaseName(name), value);
  }
}
