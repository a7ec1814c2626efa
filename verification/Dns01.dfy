/** Publishing DNS-01 challenges (section 8.4 of RFC 8555) and taking them down again. */
module Dns01 {
  import opened Common
  import opened DnsZone
  import opened Text

  datatype Status = Pending | Valid | Other

  /** An authorization of the order: the TXT name that answers it and the value expected there. */
  datatype Authorization = Authorization(status: Status, offersDns01: bool, domain: string, value: string)

  datatype Challenge = Challenge(id: Id, domain: string, value: string)

  predicate TxtAt(r: Record, name: string) {
    r.kind == "TXT" && At(r, name)
  }

  function TxtRecord(c: Challenge): Record {
    Record(c.domain, "TXT", c.value)
  }

  predicate IsLive(rs: Records, c: Challenge) {
    c.id in rs && rs[c.id] == TxtRecord(c)
  }

  predicate AllLive(rs: Records, cs: seq<Challenge>) {
    forall i :: 0 <= i < |cs| ==> IsLive(rs, cs[i])
  }

  predicate Published(cs: seq<Challenge>, id: Id) {
    exists i :: 0 <= i < |cs| && cs[i].id == id
  }

  /** At every published name, only published TXT records. */
  ghost predicate OnlyPublished(rs: Records, cs: seq<Challenge>) {
    forall i, id :: 0 <= i < |cs| && id in rs && TxtAt(rs[id], cs[i].domain) ==> Published(cs, id)
  }

  /** `needs_purge`: the names are compared as written. */
  predicate NeedsPurge(cs: seq<Challenge>, domain: string) {
    !exists i :: 0 <= i < |cs| && cs[i].domain == domain
  }

  /** No two names are spellings of one another. */
  ghost predicate OneSpelling(names: seq<string>) {
    forall i, j :: 0 <= i < |names| && 0 <= j < |names| && Canon(names[i]) == Canon(names[j]) ==> names[i] == names[j]
  }

  function Domains(cs: seq<Challenge>): (names: seq<string>)
    ensures |names| == |cs| && forall i :: 0 <= i < |cs| ==> names[i] == cs[i].domain
  {
    seq(|cs|, i requires 0 <= i < |cs| => cs[i].domain)
  }

  function Purge(rs: Records, name: string): Records {
    map id | id in rs && !TxtAt(rs[id], name) :: rs[id]
  }

  // ----- one authorization -----

  /** Publishing the next challenge keeps all challenges live exactly when its name is no new
      spelling of a published one. */
  lemma PublishKeepsLive(rs: Records, cs: seq<Challenge>, c: Challenge)
    requires AllLive(rs, cs) <==> OneSpelling(Domains(cs))
    requires c.id !in rs && !Published(cs, c.id)
    ensures var purged := if NeedsPurge(cs, c.domain) then Purge(rs, c.domain) else rs;
            AllLive(purged[c.id := TxtRecord(c)], cs + [c]) <==> OneSpelling(Domains(cs + [c]))
  {
    hide Canon;
    var purged := if NeedsPurge(cs, c.domain) then Purge(rs, c.domain) else rs;
    var after, all := purged[c.id := TxtRecord(c)], cs + [c];
    SpellingPrefix(cs, c);
    if OneSpelling(Domains(all)) {
      StillLive(rs, cs, c);
    } else if !AllLive(rs, cs) {
      var i :| 0 <= i < |cs| && !IsLive(rs, cs[i]);
      assert all[i] == cs[i] && !IsLive(after, all[i]);
    } else {
      var i := Respelled(cs, c);
      assert all[i] == cs[i] && TxtAt(rs[cs[i].id], c.domain) && !IsLive(after, all[i]);
    }
  }

  lemma SpellingPrefix(cs: seq<Challenge>, c: Challenge)
    ensures OneSpelling(Domains(cs + [c])) ==> OneSpelling(Domains(cs))
  {
    hide Canon;
    var names, all := Domains(cs), Domains(cs + [c]);
    assert forall i :: 0 <= i < |cs| ==> names[i] == all[i];
  }

  /** A name that is a new spelling is one that gets purged. */
  lemma Respelled(cs: seq<Challenge>, c: Challenge) returns (i: nat)
    requires OneSpelling(Domains(cs)) && !OneSpelling(Domains(cs + [c]))
    ensures i < |cs| && Canon(cs[i].domain) == Canon(c.domain) && NeedsPurge(cs, c.domain)
  {
    hide Canon;
    var names, all := Domains(cs), Domains(cs + [c]);
    assert forall k :: 0 <= k < |cs| ==> all[k] == names[k] == cs[k].domain;
    assert all[|cs|] == c.domain;
    i :| 0 <= i < |cs| && Canon(names[i]) == Canon(c.domain) && names[i] != c.domain;
  }

  lemma NotPurged(rs: Records, cs: seq<Challenge>, c: Challenge, i: nat)
    requires i < |cs| && IsLive(rs, cs[i]) && OneSpelling(Domains(cs + [c])) && NeedsPurge(cs, c.domain)
    ensures !TxtAt(rs[cs[i].id], c.domain)
  {
    hide Canon;
    var all := Domains(cs + [c]);
    assert all[i] == cs[i].domain && all[|cs|] == c.domain;
  }

  lemma StillLive(rs: Records, cs: seq<Challenge>, c: Challenge)
    requires AllLive(rs, cs) && OneSpelling(Domains(cs + [c])) && !Published(cs, c.id)
    ensures var purged := if NeedsPurge(cs, c.domain) then Purge(rs, c.domain) else rs;
            AllLive(purged, cs) && AllLive(purged[c.id := TxtRecord(c)], cs + [c])
  {
    hide At, NeedsPurge, OneSpelling;
    forall i | 0 <= i < |cs| && NeedsPurge(cs, c.domain)
      ensures !TxtAt(rs[cs[i].id], c.domain)
    {
      NotPurged(rs, cs, c, i);
    }
  }

  // ----- the zone calls -----

  /** Some of the TXT records at `name` are gone, and nothing else has changed. */
  ghost predicate PartlyPurged(before: Records, after: Records, name: string) {
    && (forall id :: id in after ==> id in before && after[id] == before[id])
    && (forall id :: id in before && !TxtAt(before[id], name) ==> id in after)
  }

  /** The steps from `from` on remove TXT records at `name` and do nothing else to old records. */
  ghost predicate PurgeSteps(steps: seq<Step>, from: nat, before: Records, name: string) {
    forall k :: from <= k < |steps| && steps[k].call.Remove? ==>
      steps[k].call.id in before && TxtAt(before[steps[k].call.id], name)
  }

  ghost predicate OnlyRemoves(steps: seq<Step>, from: nat) {
    forall k :: from <= k < |steps| ==> steps[k].call.Remove?
  }

  function TxtListed(name: string): Listed -> bool {
    (x: Listed) => TxtAt(x.record, name)
  }

  function TxtIds(rs: Records, name: string): set<Id> {
    set id | id in rs && TxtAt(rs[id], name)
  }

  /** How many of the next `n` calls go through before one does not. */
  function Fines(script: seq<Fault>, n: nat): (f: nat)
    ensures f <= n
    ensures forall k :: 0 <= k < f ==> FaultAt(script, k) == Fine
    ensures f < n ==> FaultAt(script, f) != Fine
    decreases n
  {
    if n == 0 then 0
    else
      var f := Fines(script, n - 1);
      if f < n - 1 || FaultAt(script, n - 1) != Fine then f else n
  }

  /** `remove_txt_records`: one call for the list and one for each record, up to the first that fails. */
  method RemoveTxtRecords(zone: Zone, name: string) returns (res: Result<()>)
    requires zone.Valid()
    modifies zone
    ensures zone.Valid() && zone.nextId == old(zone.nextId) && old(zone.steps) <= zone.steps
    ensures res.Ok? ==> zone.records == Purge(old(zone.records), name)
    ensures PartlyPurged(old(zone.records), zone.records, name)
    ensures PurgeSteps(zone.steps, |old(zone.steps)|, old(zone.records), name)
    ensures OnlyRemoves(zone.steps, |old(zone.steps)|)
    ensures var n := 1 + |TxtIds(old(zone.records), name)|;
            && (res.Ok? <==> Fines(old(zone.script), n) == n)
            && zone.script == After(old(zone.script), if res.Ok? then n else Fines(old(zone.script), n) + 1)
  {
    hide Chained, Lists, Purge, PartlyPurged, PurgeSteps, At, Fines, TxtIds, Purging, After, FaultAt;
    ghost var rs0, script, from := zone.records, zone.script, |zone.steps|;
    NothingPurged(rs0, zone.steps, name);
    var list := zone.GetRecords(name);
    if list.Err? {
      FailsAt(script, 0, 1 + |TxtIds(rs0, name)|);
      return Err;
    }
    var l := list.value;
    PurgeBegins(l, rs0, name, script);
    ghost var used := 1;
    for k := 0 to |l|
      invariant zone.Valid() && zone.nextId == old(zone.nextId) && old(zone.steps) <= zone.steps
      invariant Purging(rs0, zone.records, name, l, k, script, zone.script, used)
      invariant PurgeSteps(zone.steps, from, rs0, name) && OnlyRemoves(zone.steps, from)
    {
      ghost var rs, fault := zone.records, FaultAt(zone.script, 0);
      if l[k].record.kind != "TXT" {
        PurgeSkips(rs0, rs, name, l, k, script, zone.script, used);
        continue;
      }
      PurgeRemoves(rs0, rs, name, l, k, script, zone.script, used);
      PurgeStep(zone.steps, from, rs0, name, rs, l[k].id, fault, rs);
      PurgeStep(zone.steps, from, rs0, name, rs, l[k].id, fault, rs - {l[k].id});
      var removed := zone.RemoveRecord(l[k].id);
      if removed.Err? {
        return Err;
      }
      used := used + 1;
    }
    PurgeEnds(rs0, zone.records, name, l, script, zone.script, used);
    return Ok(());
  }

  /** At position `k` of the list, after `used` calls that went through. */
  ghost predicate Purging(
    rs0: Records, rs: Records, name: string, l: seq<Listed>, k: nat, script: seq<Fault>, left: seq<Fault>, used: nat)
  {
    && Remaining(l, k, rs, TxtListed(name))
    && (forall i :: 0 <= i < |l| ==> At(l[i].record, name))
    && PartlyPurged(rs0, rs, name)
    && used + |TxtIds(rs, name)| == 1 + |TxtIds(rs0, name)|
    && left == After(script, used) && AllFine(script, used)
  }

  lemma PurgeBegins(l: seq<Listed>, rs: Records, name: string, script: seq<Fault>)
    requires Lists(l, rs, name) && FaultAt(script, 0) == Fine
    ensures Purging(rs, rs, name, l, 0, script, After(script, 1), 1)
  {
    hide Remaining, TxtIds, At;
    TxtsListed(l, rs, name);
    NothingPurged(rs, [], name);
  }

  lemma PurgeSkips(
    rs0: Records, rs: Records, name: string, l: seq<Listed>, k: nat, script: seq<Fault>, left: seq<Fault>, used: nat)
    requires k < |l| && Purging(rs0, rs, name, l, k, script, left, used) && l[k].record.kind != "TXT"
    ensures Purging(rs0, rs, name, l, k + 1, script, left, used)
  {
    hide Remaining, TxtIds, PartlyPurged, AllFine, After;
    ListedStays(l, k, rs, TxtListed(name));
  }

  lemma PurgeRemoves(
    rs0: Records, rs: Records, name: string, l: seq<Listed>, k: nat, script: seq<Fault>, left: seq<Fault>, used: nat)
    requires k < |l| && Purging(rs0, rs, name, l, k, script, left, used) && l[k].record.kind == "TXT"
    ensures l[k].id in rs && l[k].id in rs0 && TxtAt(rs0[l[k].id], name)
    ensures PartlyPurged(rs0, rs, name) && PartlyPurged(rs0, rs - {l[k].id}, name)
    ensures if FaultAt(left, 0) == Fine then
              Purging(rs0, rs - {l[k].id}, name, l, k + 1, script, After(left, 1), used + 1)
            else
              var n := 1 + |TxtIds(rs0, name)|;
              Fines(script, n) == used < n && After(left, 1) == After(script, used + 1)
  {
    hide TxtIds, After, FaultAt, Fines, At;
    OneRemoved(rs, rs0, name, l, k);
    OneFewer(rs, name, l[k].id);
    NextFault(script, used);
    hide Remaining, PartlyPurged, AllFine;
    if FaultAt(left, 0) != Fine {
      FailsAt(script, used, 1 + |TxtIds(rs0, name)|);
    }
  }

  lemma PurgeEnds(
    rs0: Records, rs: Records, name: string, l: seq<Listed>, script: seq<Fault>, left: seq<Fault>, used: nat)
    requires Purging(rs0, rs, name, l, |l|, script, left, used)
    ensures rs == Purge(rs0, name) && PartlyPurged(rs0, rs, name)
    ensures var n := 1 + |TxtIds(rs0, name)|; Fines(script, n) == n && left == After(script, n)
  {
    hide TxtIds, After, FaultAt, Fines, At, Remaining, PartlyPurged, AllFine, Purge;
    AllRemoved(rs0, rs, name, l);
    NoneAreLeft(rs0, name);
    AllGoThrough(script, used);
  }

  predicate AllFine(script: seq<Fault>, n: nat) {
    forall k :: 0 <= k < n ==> FaultAt(script, k) == Fine
  }

  /** Faults and scripts after `used` calls, seen from the start. */
  lemma NextFault(script: seq<Fault>, used: nat)
    requires AllFine(script, used)
    ensures FaultAt(After(script, used), 0) == FaultAt(script, used)
    ensures After(After(script, used), 1) == After(script, used + 1)
    ensures FaultAt(script, used) == Fine ==> AllFine(script, used + 1)
  {
  }

  lemma {:induction false} AllGoThrough(script: seq<Fault>, n: nat)
    requires AllFine(script, n)
    ensures Fines(script, n) == n
  {
    hide FaultAt;
    if n > 0 {
      AllGoThrough(script, n - 1);
    }
  }

  lemma {:induction false} FailsAt(script: seq<Fault>, f: nat, n: nat)
    requires f < n && AllFine(script, f) && FaultAt(script, f) != Fine
    ensures Fines(script, n) == f
  {
    hide FaultAt;
    if n == f + 1 {
      AllGoThrough(script, f);
    } else {
      FailsAt(script, f, n - 1);
    }
  }

  lemma OneFewer(rs: Records, name: string, id: Id)
    requires id in rs && TxtAt(rs[id], name)
    ensures |TxtIds(rs - {id}, name)| == |TxtIds(rs, name)| - 1
  {
    hide TxtAt;
    assert TxtIds(rs - {id}, name) == TxtIds(rs, name) - {id};
  }

  lemma NoneAreLeft(rs: Records, name: string)
    ensures TxtIds(Purge(rs, name), name) == {}
  {
    hide TxtAt;
  }

  lemma NothingPurged(rs: Records, steps: seq<Step>, name: string)
    ensures PartlyPurged(rs, rs, name) && PurgeSteps(steps, |steps|, rs, name)
  {
  }

  lemma PurgeStep(
    steps: seq<Step>, from: nat, rs0: Records, name: string, before: Records, id: Id, fault: Fault, after: Records)
    requires PurgeSteps(steps, from, rs0, name) && id in rs0 && TxtAt(rs0[id], name)
    ensures PurgeSteps(steps + [Step(before, Remove(id), fault, after)], from, rs0, name)
  {
    hide At;
  }

  lemma TxtsListed(l: seq<Listed>, rs: Records, name: string)
    requires Lists(l, rs, name)
    ensures Remaining(l, 0, rs, TxtListed(name))
    ensures forall k :: 0 <= k < |l| ==> At(l[k].record, name)
  {
    hide At, Remaining;
    ListBegins(l, rs, name, TxtListed(name));
  }

  lemma OneRemoved(rs: Records, before: Records, name: string, l: seq<Listed>, k: nat)
    requires k < |l| && Remaining(l, k, rs, TxtListed(name)) && PartlyPurged(before, rs, name) && TxtListed(name)(l[k])
    ensures Remaining(l, k + 1, rs - {l[k].id}, TxtListed(name)) && PartlyPurged(before, rs - {l[k].id}, name)
    ensures l[k].id in rs && l[k].id in before && before[l[k].id] == rs[l[k].id] && TxtAt(rs[l[k].id], name)
  {
    hide At;
    ListedRemoved(l, k, rs, TxtListed(name));
  }

  lemma AllRemoved(before: Records, after: Records, name: string, l: seq<Listed>)
    requires Remaining(l, |l|, after, TxtListed(name)) && PartlyPurged(before, after, name)
    ensures after == Purge(before, name)
  {
    hide At;
    forall id | id in after
      ensures !TxtAt(after[id], name)
    {
      assert !TxtListed(name)(Listed(id, after[id]));
    }
  }

  function Purged(rs: Records, cs: seq<Challenge>, domain: string): Records {
    if NeedsPurge(cs, domain) then Purge(rs, domain) else rs
  }

  /** What an attempt to publish at `domain` may have done when it failed: part of the purge, or
      all of it and an added record whose id never came back. */
  ghost predicate Attempted(before: Records, after: Records, cs: seq<Challenge>, c: Challenge) {
    && (forall id :: id in after && id != c.id ==> id in before && after[id] == before[id])
    && (forall id :: id in before && !(NeedsPurge(cs, c.domain) && TxtAt(before[id], c.domain)) ==> id in after)
    && (c.id in after ==> after[c.id] == TxtRecord(c))
  }

  /** The last call from `from` on was an add that took effect, as record `id`, and whose answer was lost. */
  ghost predicate LostAdd(steps: seq<Step>, from: nat, id: Id) {
    && |steps| > from
    && steps[|steps| - 1].call.Add? && steps[|steps| - 1].fault == Lost
    && id in steps[|steps| - 1].after && id !in steps[|steps| - 1].before
  }

  ghost predicate PublishSteps(steps: seq<Step>, from: nat, before: Records, cs: seq<Challenge>, domain: string) {
    && PurgeSteps(steps, from, before, domain)
    && (!NeedsPurge(cs, domain) ==> forall k :: from <= k < |steps| ==> steps[k].call.Add?)
  }

  /** How an attempt to publish ends: whether it succeeded, whether the record was added, and what
      is left of the script. */
  datatype Attempt = Attempt(ok: bool, added: bool, rest: seq<Fault>)

  /** The calls ahead of the add. */
  function PurgeCalls(rs: Records, cs: seq<Challenge>, domain: string): nat {
    if NeedsPurge(cs, domain) then 1 + |TxtIds(rs, domain)| else 0
  }

  function TryPublish(refuses: bool, rs: Records, cs: seq<Challenge>, c: Challenge, script: seq<Fault>): Attempt {
    var n := PurgeCalls(rs, cs, c.domain);
    if Fines(script, n) < n then Attempt(false, false, After(script, Fines(script, n) + 1))
    else
      var fault, rest := FaultAt(script, n), After(script, n + 1);
      if fault == Refused || (refuses && Duplicates(Purged(rs, cs, c.domain), TxtRecord(c)))
      then Attempt(false, false, rest)
      else Attempt(fault == Fine, true, rest)
  }

  lemma AfterThen(script: seq<Fault>, n: nat)
    ensures FaultAt(After(script, n), 0) == FaultAt(script, n) && After(After(script, n), 1) == After(script, n + 1)
  {
  }

  lemma AttemptedByPurge(before: Records, after: Records, cs: seq<Challenge>, c: Challenge)
    requires NeedsPurge(cs, c.domain) && PartlyPurged(before, after, c.domain) && c.id !in before
    ensures Attempted(before, after, cs, c) && c.id !in after
  {
    hide NeedsPurge, TxtAt;
  }

  lemma AttemptedAfterPurge(before: Records, cs: seq<Challenge>, c: Challenge)
    requires c.id !in before
    ensures var purged := Purged(before, cs, c.domain);
            c.id !in purged && Attempted(before, purged, cs, c) && Attempted(before, purged[c.id := TxtRecord(c)], cs, c)
  {
    hide NeedsPurge, TxtAt;
  }

  lemma AddIsNoPurge(steps: seq<Step>, from: nat, rs0: Records, name: string)
    requires PurgeSteps(steps, from, rs0, name)
    ensures forall step: Step :: step.call.Add? ==> PurgeSteps(steps + [step], from, rs0, name)
  {
    hide TxtAt;
  }

  lemma NoCalls(script: seq<Fault>)
    ensures Fines(script, 0) == 0 && After(script, 0) == script
  {
  }

  /** Purges the name unless this run has published there, then adds the record. */
  method Publish(zone: Zone, cs: seq<Challenge>, domain: string, value: string) returns (res: Result<Challenge>)
    requires zone.Valid()
    modifies zone
    ensures zone.Valid() && old(zone.steps) <= zone.steps && zone.nextId >= old(zone.nextId)
    ensures PublishSteps(zone.steps, |old(zone.steps)|, old(zone.records), cs, domain)
    ensures var c := Challenge(old(zone.nextId), domain, value);
            && (res.Ok? ==> res.value == c && zone.nextId == c.id + 1
                            && zone.records == Purged(old(zone.records), cs, domain)[c.id := TxtRecord(c)])
            && (res.Err? ==> Attempted(old(zone.records), zone.records, cs, c))
            && TryPublish(zone.refusesDuplicates, old(zone.records), cs, c, old(zone.script))
               == Attempt(res.Ok?, c.id in zone.records, zone.script)
    ensures forall id: Id :: LostAdd(zone.steps, |old(zone.steps)|, id)
                         <==> res.Err? && id in zone.records && id == old(zone.nextId)
  {
    hide Chained, Purge, At, NeedsPurge, Duplicates, Fines, TxtIds, PartlyPurged, FaultAt, After, Attempted, PurgeSteps;
    ghost var c, rs := Challenge(zone.nextId, domain, value), zone.records;
    AfterThen(zone.script, PurgeCalls(rs, cs, domain));
    NoCalls(zone.script);
    AttemptedAfterPurge(rs, cs, c);
    NothingPurged(rs, zone.steps, domain);
    if NeedsPurge(cs, domain) {
      var purged := RemoveTxtRecords(zone, domain);
      if purged.Err? {
        AttemptedByPurge(rs, zone.records, cs, c);
        return Err;
      }
    }
    AddIsNoPurge(zone.steps, |old(zone.steps)|, rs, domain);
    var id := zone.AddRecord(Record(domain, "TXT", value));
    if id.Err? {
      return Err;
    }
    return Ok(Challenge(id.value, domain, value));
  }

  // ----- the whole order -----

  function PendingNames(authzs: seq<Authorization>): seq<string> {
    if authzs == [] then []
    else
      var front, last := PendingNames(authzs[..|authzs| - 1]), authzs[|authzs| - 1];
      if last.status == Pending then front + [last.domain] else front
  }

  /** Old records outside the TXT records at `names` are as they were. */
  ghost predicate Kept(before: Records, after: Records, names: seq<string>, firstId: Id) {
    && (forall id :: id in before && !TxtAtSome(before[id], names) ==> id in after && after[id] == before[id])
    && (forall id :: id in after && id < firstId ==> id in before && after[id] == before[id])
  }

  predicate TxtAtSome(r: Record, names: seq<string>) {
    exists i :: 0 <= i < |names| && TxtAt(r, names[i])
  }

  ghost predicate Owned(rs: Records, firstId: Id, cs: seq<Challenge>, nextId: Id) {
    && firstId <= nextId
    && (forall i :: 0 <= i < |cs| ==> firstId <= cs[i].id < nextId)
    && (forall id :: id in rs && firstId <= id ==> Published(cs, id))
  }

  /** Between two authorizations: the published challenges are live together exactly when their
      names are spelled one way, and nothing else is at those names. */
  ghost predicate Going(rs0: Records, firstId: Id, rs: Records, nextId: Id, cs: seq<Challenge>) {
    && (AllLive(rs, cs) <==> OneSpelling(Domains(cs)))
    && OnlyPublished(rs, cs)
    && Owned(rs, firstId, cs, nextId)
    && Kept(rs0, rs, Domains(cs), firstId)
  }

  lemma OnlyPublishedStep(rs: Records, cs: seq<Challenge>, c: Challenge)
    requires OnlyPublished(rs, cs)
    ensures OnlyPublished(Purged(rs, cs, c.domain)[c.id := TxtRecord(c)], cs + [c])
  {
    hide Canon;
    var after, all := Purged(rs, cs, c.domain)[c.id := TxtRecord(c)], cs + [c];
    forall i, id | 0 <= i < |all| && id in after && TxtAt(after[id], all[i].domain)
      ensures Published(all, id)
    {
      if id == c.id {
        assert all[|cs|].id == id;
      } else {
        assert Published(cs, id);
        var k :| 0 <= k < |cs| && cs[k].id == id;
        assert all[k].id == id;
      }
    }
  }

  lemma OwnedStep(rs: Records, firstId: Id, cs: seq<Challenge>, c: Challenge, nextId: Id)
    requires Owned(rs, firstId, cs, c.id) && c.id < nextId
    ensures Owned(Purged(rs, cs, c.domain)[c.id := TxtRecord(c)], firstId, cs + [c], nextId)
  {
    hide At, NeedsPurge;
    var after, all := Purged(rs, cs, c.domain)[c.id := TxtRecord(c)], cs + [c];
    forall id | id in after && firstId <= id
      ensures Published(all, id)
    {
      if id == c.id {
        assert all[|cs|].id == id;
      } else {
        assert Published(cs, id);
        var k :| 0 <= k < |cs| && cs[k].id == id;
        assert all[k].id == id;
      }
    }
  }

  lemma KeptStep(rs0: Records, rs: Records, after: Records, names: seq<string>, name: string, firstId: Id)
    requires Kept(rs0, rs, names, firstId)
    requires forall id :: id in rs && !TxtAt(rs[id], name) ==> id in after && after[id] == rs[id]
    requires forall id :: id in after && id < firstId ==> id in rs && after[id] == rs[id]
    ensures Kept(rs0, after, names + [name], firstId)
  {
    hide TxtAt;
    forall id | id in rs0 && !TxtAtSome(rs0[id], names + [name])
      ensures id in after && after[id] == rs0[id]
    {
      assert (names + [name])[|names|] == name;
      assert forall i :: 0 <= i < |names| ==> (names + [name])[i] == names[i];
      assert !TxtAtSome(rs0[id], names);
    }
  }

  lemma GoingStep(rs0: Records, firstId: Id, rs: Records, cs: seq<Challenge>, c: Challenge, nextId: Id)
    requires Going(rs0, firstId, rs, c.id, cs) && c.id !in rs && c.id < nextId
    ensures Going(rs0, firstId, Purged(rs, cs, c.domain)[c.id := TxtRecord(c)], nextId, cs + [c])
  {
    hide At, NeedsPurge, OneSpelling, OnlyPublished, IsLive;
    PublishKeepsLive(rs, cs, c);
    OnlyPublishedStep(rs, cs, c);
    OwnedStep(rs, firstId, cs, c, nextId);
    KeptStep(rs0, rs, Purged(rs, cs, c.domain)[c.id := TxtRecord(c)], Domains(cs), c.domain, firstId);
    assert Domains(cs + [c]) == Domains(cs) + [c.domain];
  }

  predicate Is(c: Option<Challenge>, id: Id) {
    c.Some? && c.value.id == id
  }

  /** After a failure: what was published is live, and `lost` is the one record of ours, if any, that
      is not among the challenges. */
  ghost predicate Stopped(
    rs0: Records, firstId: Id, rs: Records, cs: seq<Challenge>, names: seq<string>, lost: Option<Challenge>)
  {
    && (OneSpelling(names) ==> AllLive(rs, cs))
    && (lost.Some? ==> IsLive(rs, lost.value) && firstId <= lost.value.id && !Published(cs, lost.value.id))
    && (forall id :: id in rs && firstId <= id ==> Published(cs, id) || Is(lost, id))
    && (forall i, id :: 0 <= i < |cs| && id in rs && TxtAt(rs[id], cs[i].domain) ==> Published(cs, id) || Is(lost, id))
    && Kept(rs0, rs, names, firstId)
  }

  lemma AttemptStops(
    rs0: Records, firstId: Id, rs: Records, after: Records, cs: seq<Challenge>, c: Challenge)
    requires Going(rs0, firstId, rs, c.id, cs) && Attempted(rs, after, cs, c)
    ensures Stopped(rs0, firstId, after, cs, Domains(cs + [c]), if c.id in after then Some(c) else None)
  {
    hide At, NeedsPurge, OneSpelling;
    assert Domains(cs + [c]) == Domains(cs) + [c.domain];
    KeptStep(rs0, rs, after, Domains(cs), c.domain, firstId);
    if OneSpelling(Domains(cs + [c])) {
      SpellingPrefix(cs, c);
      AttemptKeepsLive(rs, after, cs, c);
    }
  }

  lemma AttemptKeepsLive(rs: Records, after: Records, cs: seq<Challenge>, c: Challenge)
    requires AllLive(rs, cs) && OneSpelling(Domains(cs + [c])) && Attempted(rs, after, cs, c)
    requires forall i :: 0 <= i < |cs| ==> cs[i].id != c.id
    ensures AllLive(after, cs)
  {
    hide At, NeedsPurge, OneSpelling;
    forall i | 0 <= i < |cs| && NeedsPurge(cs, c.domain)
      ensures !TxtAt(rs[cs[i].id], c.domain)
    {
      NotPurged(rs, cs, c, i);
    }
  }

  /** No step from `from` on removes a record this run has added. */
  ghost predicate OwnKept(steps: seq<Step>, from: nat, firstId: Id) {
    forall k :: from <= k < |steps| && steps[k].call.Remove? ==> steps[k].call.id < firstId
  }

  lemma OwnNotPurged(
    rs0: Records, firstId: Id, rs: Records, cs: seq<Challenge>, c: Challenge, from: nat, steps: seq<Step>,
    steps': seq<Step>)
    requires Going(rs0, firstId, rs, c.id, cs) && OneSpelling(Domains(cs + [c]))
    requires from <= |steps| && steps <= steps' && OwnKept(steps, from, firstId)
    requires PublishSteps(steps', |steps|, rs, cs, c.domain)
    ensures OwnKept(steps', from, firstId)
  {
    hide At, NeedsPurge, OneSpelling;
    SpellingPrefix(cs, c);
    forall i | 0 <= i < |cs| && NeedsPurge(cs, c.domain)
      ensures !TxtAt(rs[cs[i].id], c.domain)
    {
      NotPurged(rs, cs, c, i);
    }
    assert forall k :: 0 <= k < |steps| ==> steps'[k] == steps[k];
  }

  lemma SpellingOfPrefix(names: seq<string>, names': seq<string>)
    requires names <= names' && OneSpelling(names')
    ensures OneSpelling(names)
  {
    hide Canon;
    assert forall i :: 0 <= i < |names| ==> names[i] == names'[i];
  }

  lemma {:induction false} PendingPrefix(authzs: seq<Authorization>, i: nat)
    requires i <= |authzs|
    ensures PendingNames(authzs[..i]) <= PendingNames(authzs)
    decreases |authzs|
  {
    if i == |authzs| {
      assert authzs[..i] == authzs;
    } else {
      var init := authzs[..|authzs| - 1];
      PendingPrefix(init, i);
      assert init[..i] == authzs[..i];
    }
  }

  lemma NextPending(authzs: seq<Authorization>, i: nat)
    requires i < |authzs|
    ensures PendingNames(authzs[..i + 1])
            == PendingNames(authzs[..i]) + (if authzs[i].status == Pending then [authzs[i].domain] else [])
  {
    assert authzs[..i + 1][..i] == authzs[..i];
  }

  lemma StoppedAmong(
    rs0: Records, firstId: Id, rs: Records, cs: seq<Challenge>, names: seq<string>, names': seq<string>,
    lost: Option<Challenge>)
    requires Stopped(rs0, firstId, rs, cs, names, lost) && names <= names'
    ensures Stopped(rs0, firstId, rs, cs, names', lost)
  {
    hide TxtAt, OneSpelling, AllLive;
    if OneSpelling(names') {
      SpellingOfPrefix(names, names');
    }
    assert forall i :: 0 <= i < |names| ==> names[i] == names'[i];
    forall id | id in rs0 && TxtAtSome(rs0[id], names)
      ensures TxtAtSome(rs0[id], names')
    {
      var i :| 0 <= i < |names| && TxtAt(rs0[id], names[i]);
      assert TxtAt(rs0[id], names'[i]);
    }
  }

  lemma GoingStops(rs0: Records, firstId: Id, rs: Records, nextId: Id, cs: seq<Challenge>)
    requires Going(rs0, firstId, rs, nextId, cs)
    ensures Stopped(rs0, firstId, rs, cs, Domains(cs), None)
  {
    hide TxtAt, OneSpelling, AllLive;
  }

  lemma NothingPublished(rs: Records, firstId: Id)
    requires forall id :: id in rs ==> id < firstId
    ensures Going(rs, firstId, rs, firstId, [])
  {
  }

  /** How `authorize` ends, read off the zone, the order and the script before it starts: the
      challenges it knows of, the record it added without knowing, and the script that is left. */
  datatype Authorized = Authorized(ok: bool, challenges: seq<Challenge>, lost: Option<Challenge>, rest: seq<Fault>)

  function Predict(
    refuses: bool, rs: Records, nextId: Id, cs: seq<Challenge>, authzs: seq<Authorization>, script: seq<Fault>): Authorized
    decreases |authzs|
  {
    if authzs == [] then Authorized(true, cs, None, script)
    else if authzs[0].status == Valid then Predict(refuses, rs, nextId, cs, authzs[1..], script)
    else if authzs[0].status == Other || !authzs[0].offersDns01 then Authorized(false, cs, None, script)
    else
      var c := Challenge(nextId, authzs[0].domain, authzs[0].value);
      var t := TryPublish(refuses, rs, cs, c, script);
      if !t.ok then Authorized(false, cs, if t.added then Some(c) else None, t.rest)
      else
        var rs' := Purged(rs, cs, c.domain)[nextId := TxtRecord(c)];
        Predict(refuses, rs', nextId + 1, cs + [c], authzs[1..], t.rest)
  }

  lemma NothingRemoved(steps: seq<Step>, firstId: Id)
    ensures OwnKept(steps, |steps|, firstId)
  {
  }

  lemma GoingIds(rs0: Records, firstId: Id, rs: Records, nextId: Id, cs: seq<Challenge>)
    requires Going(rs0, firstId, rs, nextId, cs)
    ensures forall i :: 0 <= i < |cs| ==> firstId <= cs[i].id < nextId
  {
    hide AllLive, OneSpelling, OnlyPublished, Kept;
  }

  /** `authorize` under dns-01. */
  method Authorize(zone: Zone, authzs: seq<Authorization>)
    returns (res: Result<()>, challenges: seq<Challenge>, ghost lost: Option<Challenge>)
    requires zone.Valid()
    modifies zone
    ensures zone.Valid() && old(zone.steps) <= zone.steps && old(zone.nextId) <= zone.nextId
    ensures forall i :: 0 <= i < |challenges| ==> old(zone.nextId) <= challenges[i].id
    ensures DistinctIds(challenges)
    ensures Predict(zone.refusesDuplicates, old(zone.records), old(zone.nextId), [], authzs, old(zone.script))
            == Authorized(res.Ok?, challenges, lost, zone.script)
    ensures forall id: Id :: Is(lost, id) <==> LostAdd(zone.steps, |old(zone.steps)|, id)
    ensures Lost !in old(zone.script) ==> lost == None
    ensures res.Ok? ==> lost == None && Domains(challenges) == PendingNames(authzs)
                        && Going(old(zone.records), old(zone.nextId), zone.records, zone.nextId, challenges)
    ensures res.Err? ==>
      Stopped(old(zone.records), old(zone.nextId), zone.records, challenges, PendingNames(authzs), lost)
    ensures OneSpelling(PendingNames(authzs)) ==> OwnKept(zone.steps, |old(zone.steps)|, old(zone.nextId))
  {
    hide Canon, Chained, OneSpelling, Stopped, Going, OwnKept, PendingNames, Domains, Predict, TryPublish, LostAdd, Purged;
    ghost var rs0, firstId, from, names := zone.records, zone.nextId, |zone.steps|, PendingNames(authzs);
    ghost var foretold := Predict(zone.refusesDuplicates, rs0, firstId, [], authzs, zone.script);
    HealthyNetwork(zone.refusesDuplicates, rs0, firstId, [], authzs, zone.script);
    challenges := [];
    NothingPublished(rs0, firstId);
    NoPending();
    NothingLost(zone.steps);
    NothingRemoved(zone.steps, firstId);
    assert authzs[0..] == authzs;
    for i := 0 to |authzs|
      invariant zone.Valid() && old(zone.steps) <= zone.steps && firstId <= zone.nextId
      invariant Going(rs0, firstId, zone.records, zone.nextId, challenges)
      invariant Domains(challenges) == PendingNames(authzs[..i])
      invariant OneSpelling(names) ==> OwnKept(zone.steps, from, firstId)
      invariant DistinctIds(challenges)
      invariant forall id: Id :: !LostAdd(zone.steps, from, id)
      invariant foretold
                == Predict(zone.refusesDuplicates, zone.records, zone.nextId, challenges, authzs[i..], zone.script)
    {
      GoingIds(rs0, firstId, zone.records, zone.nextId, challenges);
      NextPending(authzs, i);
      PendingPrefix(authzs, i);
      PendingPrefix(authzs, i + 1);
      PredictNext(zone.refusesDuplicates, zone.records, zone.nextId, challenges, authzs, i, zone.script);
      if authzs[i].status == Valid {
        continue;
      }
      if authzs[i].status == Other || !authzs[i].offersDns01 {
        GoingStops(rs0, firstId, zone.records, zone.nextId, challenges);
        StoppedAmong(rs0, firstId, zone.records, challenges, Domains(challenges), names, None);
        return Err, challenges, None;
      }
      var published, unanswered :=
        PublishNext(zone, challenges, authzs[i].domain, authzs[i].value, rs0, firstId, from, names);
      if published.Err? {
        return Err, challenges, unanswered;
      }
      challenges := challenges + [published.value];
    }
    assert authzs[..|authzs|] == authzs && authzs[|authzs|..] == [];
    PredictEnd(zone.refusesDuplicates, zone.records, zone.nextId, challenges, zone.script);
    GoingIds(rs0, firstId, zone.records, zone.nextId, challenges);
    return Ok(()), challenges, None;
  }

  lemma NoPending()
    ensures PendingNames([]) == []
  {
  }

  lemma NothingLost(steps: seq<Step>)
    ensures forall id: Id :: !LostAdd(steps, |steps|, id)
  {
  }

  lemma PredictEnd(refuses: bool, rs: Records, nextId: Id, cs: seq<Challenge>, script: seq<Fault>)
    ensures Predict(refuses, rs, nextId, cs, [], script) == Authorized(true, cs, None, script)
  {
  }

  lemma PredictNext(
    refuses: bool, rs: Records, nextId: Id, cs: seq<Challenge>, authzs: seq<Authorization>, i: nat, script: seq<Fault>)
    requires i < |authzs|
    ensures var all, a := Predict(refuses, rs, nextId, cs, authzs[i..], script), authzs[i];
            var c := Challenge(nextId, a.domain, a.value);
            var t := TryPublish(refuses, rs, cs, c, script);
            all == if a.status == Valid then Predict(refuses, rs, nextId, cs, authzs[i + 1..], script)
                   else if a.status == Other || !a.offersDns01 then Authorized(false, cs, None, script)
                   else if !t.ok then Authorized(false, cs, if t.added then Some(c) else None, t.rest)
                   else Predict(refuses, Purged(rs, cs, c.domain)[nextId := TxtRecord(c)], nextId + 1, cs + [c],
                                authzs[i + 1..], t.rest)
  {
    hide TryPublish, Purged;
    assert authzs[i..][1..] == authzs[i + 1..];
  }

  lemma LostAddGrows(steps: seq<Step>, steps': seq<Step>, from: nat)
    requires steps <= steps' && from <= |steps| && forall id: Id :: !LostAdd(steps, from, id)
    ensures forall id: Id :: LostAdd(steps', from, id) <==> LostAdd(steps', |steps|, id)
  {
    if |steps'| == |steps| {
      assert steps' == steps;
    }
  }

  method PublishNext(
    zone: Zone, cs: seq<Challenge>, domain: string, value: string,
    ghost rs0: Records, ghost firstId: Id, ghost from: nat, ghost names: seq<string>)
    returns (res: Result<Challenge>, ghost lost: Option<Challenge>)
    requires zone.Valid() && Going(rs0, firstId, zone.records, zone.nextId, cs) && from <= |zone.steps|
    requires Domains(cs) + [domain] <= names
    requires OneSpelling(names) ==> OwnKept(zone.steps, from, firstId)
    requires forall id: Id :: !LostAdd(zone.steps, from, id)
    modifies zone
    ensures zone.Valid() && old(zone.steps) <= zone.steps && zone.nextId >= old(zone.nextId)
    ensures OneSpelling(names) ==> OwnKept(zone.steps, from, firstId)
    ensures var c := Challenge(old(zone.nextId), domain, value);
            && TryPublish(zone.refusesDuplicates, old(zone.records), cs, c, old(zone.script))
               == Attempt(res.Ok?, c.id in zone.records, zone.script)
            && (res.Ok? ==> res.value == c && zone.nextId == c.id + 1
                            && zone.records == Purged(old(zone.records), cs, domain)[c.id := TxtRecord(c)])
            && lost == if res.Err? && c.id in zone.records then Some(c) else None
    ensures res.Ok? ==> Going(rs0, firstId, zone.records, zone.nextId, cs + [res.value])
                        && Domains(cs + [res.value]) == Domains(cs) + [domain]
    ensures res.Err? ==> Stopped(rs0, firstId, zone.records, cs, names, lost)
    ensures forall id: Id :: LostAdd(zone.steps, from, id) <==> Is(lost, id)
  {
    hide Canon, Chained, OneSpelling, Stopped, Going, PublishSteps, Attempted, OwnKept, Purged, PurgeSteps, TryPublish;
    hide LostAdd;
    ghost var rs, steps := zone.records, zone.steps;
    ghost var c := Challenge(zone.nextId, domain, value);
    assert Domains(cs + [c]) == Domains(cs) + [domain];
    res := Publish(zone, cs, domain, value);
    lost := if res.Err? && c.id in zone.records then Some(c) else None;
    LostAddGrows(steps, zone.steps, from);
    if OneSpelling(names) {
      SpellingOfPrefix(Domains(cs + [c]), names);
      OwnNotPurged(rs0, firstId, rs, cs, c, from, steps, zone.steps);
    }
    if res.Ok? {
      GoingStep(rs0, firstId, rs, cs, c, zone.nextId);
    } else {
      AttemptStops(rs0, firstId, rs, zone.records, cs, c);
      StoppedAmong(rs0, firstId, zone.records, cs, Domains(cs + [c]), names, lost);
    }
  }

  /** At a published name the TXT records are exactly the challenges published there. */
  lemma ExactlyPublished(rs0: Records, firstId: Id, rs: Records, nextId: Id, cs: seq<Challenge>, i: nat, id: Id)
    requires Going(rs0, firstId, rs, nextId, cs) && OneSpelling(Domains(cs)) && i < |cs|
    ensures id in rs && TxtAt(rs[id], cs[i].domain)
            <==> exists k :: 0 <= k < |cs| && cs[k].id == id && cs[k].domain == cs[i].domain
  {
    assert AllLive(rs, cs) && OnlyPublished(rs, cs);
    hide Going, Canon;
    if id in rs && TxtAt(rs[id], cs[i].domain) {
      assert Published(cs, id);
      var k :| 0 <= k < |cs| && cs[k].id == id;
      assert IsLive(rs, cs[k]);
      SameSpelling(cs, i, k);
    }
    if k :| 0 <= k < |cs| && cs[k].id == id && cs[k].domain == cs[i].domain {
      assert IsLive(rs, cs[k]);
    }
  }

  lemma SameSpelling(cs: seq<Challenge>, i: nat, k: nat)
    requires OneSpelling(Domains(cs)) && i < |cs| && k < |cs| && Canon(cs[i].domain) == Canon(cs[k].domain)
    ensures cs[i].domain == cs[k].domain
  {
    hide Canon;
    var names := Domains(cs);
    assert names[i] == cs[i].domain && names[k] == cs[k].domain;
  }

  /** Two spellings of one name: publishing the second challenge takes the first one down. */
  lemma RespellingWipes(v: string, w: string)
    ensures var c := Challenge(0, "_acme-challenge.x.org", v);
            var d := Challenge(1, "_acme-challenge.X.org", w);
            var rs := Purged(map[], [], c.domain)[c.id := TxtRecord(c)];
            IsLive(rs, c) && !IsLive(Purged(rs, [c], d.domain)[d.id := TxtRecord(d)], c)
  {
    var a, b := "_acme-challenge.x.org", "_acme-challenge.X.org";
    assert TrimDots(a) == a && TrimDots(b) == b;
    assert Canon(a) == Canon(b);
    hide Canon;
    var c := Challenge(0, a, v);
    assert NeedsPurge([c], b) by {
      assert a[16] != b[16];
    }
    var rs := Purged(map[], [], a)[0 := TxtRecord(c)];
    assert TxtAt(rs[0], b);
  }

  // ----- taking the challenges down -----

  /** The cleanup after an order: a failed removal is logged and the next one tried, so a challenge
      stays exactly when its removal is refused. */
  method CleanUp(zone: Zone, challenges: seq<Challenge>)
    requires zone.Valid()
    modifies zone
    ensures zone.Valid() && zone.nextId == old(zone.nextId)
    ensures forall id :: id in zone.records ==> id in old(zone.records) && zone.records[id] == old(zone.records)[id]
    ensures forall id :: id in old(zone.records) && !Published(challenges, id) ==> id in zone.records
    ensures DistinctIds(challenges) ==>
      forall k :: 0 <= k < |challenges| ==>
        (challenges[k].id in zone.records
         <==> challenges[k].id in old(zone.records) && FaultAt(old(zone.script), k) == Refused)
  {
    hide Chained, FaultAt, After;
    ghost var script := zone.script;
    NoCalls(script);
    for i := 0 to |challenges|
      invariant zone.Valid() && zone.nextId == old(zone.nextId) && zone.script == After(script, i)
      invariant forall id :: id in zone.records ==> id in old(zone.records) && zone.records[id] == old(zone.records)[id]
      invariant forall id :: id in old(zone.records) && !Published(challenges[..i], id) ==> id in zone.records
      invariant DistinctIds(challenges) ==>
        forall k :: 0 <= k < i ==>
          (challenges[k].id in zone.records <==> challenges[k].id in old(zone.records) && FaultAt(script, k) == Refused)
    {
      AfterThen(script, i);
      PublishedNext(challenges, i);
      var _ := zone.RemoveRecord(challenges[i].id);
    }
    assert challenges[..|challenges|] == challenges;
  }

  lemma PublishedNext(cs: seq<Challenge>, i: nat)
    requires i < |cs|
    ensures forall id :: Published(cs[..i + 1], id) <==> Published(cs[..i], id) || id == cs[i].id
  {
    forall id | Published(cs[..i], id)
      ensures Published(cs[..i + 1], id)
    {
      var k :| 0 <= k < i && cs[..i][k].id == id;
      assert cs[..i + 1][k].id == id;
    }
    assert cs[..i + 1][i].id == cs[i].id;
    forall id | Published(cs[..i + 1], id) && id != cs[i].id
      ensures Published(cs[..i], id)
    {
      var k :| 0 <= k < i + 1 && cs[..i + 1][k].id == id;
      assert cs[..i][k].id == id;
    }
  }

  predicate DistinctIds(cs: seq<Challenge>) {
    forall i, j :: 0 <= i < j < |cs| ==> cs[i].id != cs[j].id
  }

  /** No removal of the cleanup is refused. */
  predicate CleanupWorks(o: Authorized) {
    forall k :: 0 <= k < |o.challenges| ==> FaultAt(o.rest, k) != Refused
  }

  /** `request_new_certificate`: whatever becomes of the order, cleanup runs. What it leaves of this
      run is settled by the zone, the order and the network's faults: the record of an add whose
      answer was lost, and the challenges whose removal is refused. */
  method RequestNewCertificate(zone: Zone, authzs: seq<Authorization>, outcome: Result<string>)
    returns (res: Result<string>)
    requires zone.Valid()
    modifies zone
    ensures zone.Valid() && Kept(old(zone.records), zone.records, PendingNames(authzs), old(zone.nextId))
    ensures var o := Predict(zone.refusesDuplicates, old(zone.records), old(zone.nextId), [], authzs, old(zone.script));
            && res == (if o.ok then outcome else Err)
            && Left(zone.records, old(zone.nextId), o.challenges, o.lost, o.rest)
            && (CleanupWorks(o) ==> forall id: Id :: id in zone.records && old(zone.nextId) <= id <==> Is(o.lost, id))
            && (OneSpelling(PendingNames(authzs)) ==>
                  forall k :: 0 <= k < |o.challenges| ==>
                    (o.challenges[k].id in zone.records <==> FaultAt(o.rest, k) == Refused))
    ensures Lost !in old(zone.script) && Refused !in old(zone.script) ==>
              forall id :: id in zone.records ==> id < old(zone.nextId)
    ensures forall id :: id in old(zone.records) && old(zone.records)[id].kind != "TXT" ==>
              id in zone.records && zone.records[id] == old(zone.records)[id]
  {
    hide Chained, OneSpelling, PendingNames, OwnKept, LostAdd, Predict, Going, Stopped, Kept, FaultAt, AllLive;
    hide CleanupWorks, DistinctIds, Left, Known;
    ghost var rs0, firstId, names := zone.records, zone.nextId, PendingNames(authzs);
    HealthyNetwork(zone.refusesDuplicates, rs0, firstId, [], authzs, zone.script);
    var authorized, challenges, lost := Authorize(zone, authzs);
    ghost var rs, rest := zone.records, zone.script;
    if authorized.Ok? {
      KnownWhenGoing(rs0, firstId, rs, zone.nextId, challenges);
    } else {
      KnownWhenStopped(rs0, firstId, rs, challenges, names, lost);
    }
    CleanUp(zone, challenges);
    WhatIsLeft(firstId, rs, zone.records, challenges, lost, rest);
    KeptByCleanup(rs0, rs, zone.records, names, firstId, challenges);
    LeftIs(firstId, zone.records, Authorized(authorized.Ok?, challenges, lost, rest));
    OtherKindsStay(rs0, zone.records, names, firstId);
    res := if authorized.Ok? then outcome else Err;
  }

  lemma OtherKindsStay(before: Records, after: Records, names: seq<string>, firstId: Id)
    requires Kept(before, after, names, firstId)
    ensures forall id :: id in before && before[id].kind != "TXT" ==> id in after && after[id] == before[id]
  {
    hide At;
  }

  /** The records of this run are its challenges and `lost`. */
  ghost predicate Known(rs: Records, firstId: Id, cs: seq<Challenge>, lost: Option<Challenge>) {
    && (forall i :: 0 <= i < |cs| ==> firstId <= cs[i].id)
    && (forall id :: id in rs && firstId <= id ==> Published(cs, id) || Is(lost, id))
    && (lost.Some? ==> IsLive(rs, lost.value) && firstId <= lost.value.id && !Published(cs, lost.value.id))
  }

  lemma KnownWhenGoing(rs0: Records, firstId: Id, rs: Records, nextId: Id, cs: seq<Challenge>)
    requires Going(rs0, firstId, rs, nextId, cs)
    ensures Known(rs, firstId, cs, None) && Kept(rs0, rs, Domains(cs), firstId)
    ensures OneSpelling(Domains(cs)) ==> AllLive(rs, cs)
  {
    hide OneSpelling, AllLive, Kept, OnlyPublished;
  }

  lemma KnownWhenStopped(
    rs0: Records, firstId: Id, rs: Records, cs: seq<Challenge>, names: seq<string>, lost: Option<Challenge>)
    requires Stopped(rs0, firstId, rs, cs, names, lost) && forall i :: 0 <= i < |cs| ==> firstId <= cs[i].id
    ensures Known(rs, firstId, cs, lost) && Kept(rs0, rs, names, firstId)
    ensures OneSpelling(names) ==> AllLive(rs, cs)
  {
    hide OneSpelling, AllLive, Kept, TxtAt;
  }

  /** What is there of this run after the cleanup: `lost`, and challenges whose removal was refused. */
  ghost predicate Left(rs: Records, firstId: Id, cs: seq<Challenge>, lost: Option<Challenge>, rest: seq<Fault>) {
    && (forall i :: 0 <= i < |cs| ==> firstId <= cs[i].id)
    && (forall id :: id in rs && firstId <= id ==> Is(lost, id) || KeptByRefusal(cs, rest, id))
    && (lost.Some? ==> IsLive(rs, lost.value) && firstId <= lost.value.id)
  }

  predicate KeptByRefusal(cs: seq<Challenge>, rest: seq<Fault>, id: Id) {
    exists k :: 0 <= k < |cs| && cs[k].id == id && FaultAt(rest, k) == Refused
  }

  lemma WhatIsLeft(firstId: Id, rs: Records, after: Records, cs: seq<Challenge>, lost: Option<Challenge>, rest: seq<Fault>)
    requires Known(rs, firstId, cs, lost)
    requires forall id :: id in after ==> id in rs && after[id] == rs[id]
    requires forall id :: id in rs && !Published(cs, id) ==> id in after
    requires forall k :: 0 <= k < |cs| ==> (cs[k].id in after <==> cs[k].id in rs && FaultAt(rest, k) == Refused)
    ensures Left(after, firstId, cs, lost, rest)
    ensures AllLive(rs, cs) ==> forall k :: 0 <= k < |cs| ==> (cs[k].id in after <==> FaultAt(rest, k) == Refused)
  {
    hide FaultAt;
    forall id | id in after && firstId <= id && !Is(lost, id)
      ensures KeptByRefusal(cs, rest, id)
    {
      var k :| 0 <= k < |cs| && cs[k].id == id;
      assert cs[k].id in after;
    }
    if AllLive(rs, cs) {
      assert forall k :: 0 <= k < |cs| ==> IsLive(rs, cs[k]);
    }
  }

  lemma LeftIs(firstId: Id, rs: Records, o: Authorized)
    requires Left(rs, firstId, o.challenges, o.lost, o.rest)
    ensures CleanupWorks(o) ==> forall id: Id :: id in rs && firstId <= id <==> Is(o.lost, id)
  {
    hide FaultAt;
  }

  lemma KeptByCleanup(rs0: Records, rs: Records, after: Records, names: seq<string>, firstId: Id, cs: seq<Challenge>)
    requires Kept(rs0, rs, names, firstId) && forall i :: 0 <= i < |cs| ==> firstId <= cs[i].id
    requires forall id :: id in rs0 ==> id < firstId
    requires forall id :: id in after ==> id in rs && after[id] == rs[id]
    requires forall id :: id in rs && !Published(cs, id) ==> id in after
    ensures Kept(rs0, after, names, firstId)
  {
    hide TxtAtSome;
    assert forall id: Id :: Published(cs, id) ==> firstId <= id;
  }

  /** What is left of the script is its end, and without a lost answer no record goes astray. */
  lemma {:induction false} HealthyNetwork(
    refuses: bool, rs: Records, nextId: Id, cs: seq<Challenge>, authzs: seq<Authorization>, script: seq<Fault>)
    ensures var o := Predict(refuses, rs, nextId, cs, authzs, script);
            && (forall fault :: fault in o.rest ==> fault in script)
            && (Lost !in script ==> o.lost == None)
            && (Refused !in script ==> CleanupWorks(o))
    decreases |authzs|
  {
    hide Purged;
    if authzs != [] {
      var c := Challenge(nextId, authzs[0].domain, authzs[0].value);
      var t := TryPublish(refuses, rs, cs, c, script);
      AttemptRest(refuses, rs, cs, c, script);
      hide TryPublish;
      HealthyNetwork(refuses, rs, nextId, cs, authzs[1..], script);
      HealthyNetwork(refuses, Purged(rs, cs, c.domain)[nextId := TxtRecord(c)], nextId + 1, cs + [c], authzs[1..], t.rest);
    }
  }

  /** The authorization needs no challenge, or offers the one certbot answers. */
  predicate Answerable(a: Authorization) {
    a.status == Valid || (a.status == Pending && a.offersDns01)
  }

  /** The name and value of every pending authorization, in order. */
  function Asked(authzs: seq<Authorization>): seq<(string, string)> {
    if authzs == [] then []
    else (if authzs[0].status == Pending then [(authzs[0].domain, authzs[0].value)] else []) + Asked(authzs[1..])
  }

  function Answered(cs: seq<Challenge>): (r: seq<(string, string)>)
    ensures |r| == |cs| && forall i :: 0 <= i < |cs| ==> r[i] == (cs[i].domain, cs[i].value)
  {
    seq(|cs|, i requires 0 <= i < |cs| => (cs[i].domain, cs[i].value))
  }

  lemma AnsweredMore(cs: seq<Challenge>, c: Challenge, rest: seq<(string, string)>)
    ensures Answered(cs + [c]) + rest == Answered(cs) + ([(c.domain, c.value)] + rest)
  {
    assert Answered(cs + [c]) == Answered(cs) + [(c.domain, c.value)];
  }

  /** Authorizing succeeds only if every authorization can be answered, and then each pending one has
      been, with its own value at its own name. */
  lemma {:induction false} AuthorizedExactly(
    refuses: bool, rs: Records, nextId: Id, cs: seq<Challenge>, authzs: seq<Authorization>, script: seq<Fault>)
    ensures var o := Predict(refuses, rs, nextId, cs, authzs, script);
            o.ok ==> && (forall i :: 0 <= i < |authzs| ==> Answerable(authzs[i]))
                     && Answered(o.challenges) == Answered(cs) + Asked(authzs)
    decreases |authzs|
  {
    hide TryPublish, Purged, Answered;
    if authzs == [] {
      assert Answered(cs) + [] == Answered(cs);
    } else {
      var a, rest := authzs[0], authzs[1..];
      assert forall i :: 1 <= i < |authzs| ==> authzs[i] == rest[i - 1];
      if a.status == Valid {
        AuthorizedExactly(refuses, rs, nextId, cs, rest, script);
        assert [] + Asked(rest) == Asked(rest);
      } else if a.status == Pending && a.offersDns01 {
        var c := Challenge(nextId, a.domain, a.value);
        var t := TryPublish(refuses, rs, cs, c, script);
        AuthorizedExactly(refuses, Purged(rs, cs, c.domain)[nextId := TxtRecord(c)], nextId + 1, cs + [c], rest, t.rest);
        AnsweredMore(cs, c, Asked(rest));
      }
    }
  }

  /** On a healthy network, with a provider that takes what it is given, it succeeds whenever every
      authorization can be answered. */
  lemma {:induction false} HealthyAuthorizes(
    rs: Records, nextId: Id, cs: seq<Challenge>, authzs: seq<Authorization>)
    ensures Predict(false, rs, nextId, cs, authzs, []).ok <==> forall i :: 0 <= i < |authzs| ==> Answerable(authzs[i])
    decreases |authzs|
  {
    hide TryPublish, Purged;
    if authzs != [] {
      var a, rest := authzs[0], authzs[1..];
      assert forall i :: 1 <= i < |authzs| ==> authzs[i] == rest[i - 1];
      assert forall i :: 0 <= i < |rest| ==> rest[i] == authzs[i + 1];
      var c := Challenge(nextId, a.domain, a.value);
      HealthyAttempt(rs, cs, c);
      HealthyAuthorizes(rs, nextId, cs, rest);
      HealthyAuthorizes(Purged(rs, cs, c.domain)[nextId := TxtRecord(c)], nextId + 1, cs + [c], rest);
    }
  }

  lemma HealthyAttempt(rs: Records, cs: seq<Challenge>, c: Challenge)
    ensures TryPublish(false, rs, cs, c, []) == Attempt(true, true, [])
  {
    hide Purged, NeedsPurge, TxtIds, Duplicates;
    AllFines(PurgeCalls(rs, cs, c.domain));
  }

  lemma {:induction false} AllFines(n: nat)
    ensures Fines([], n) == n
  {
    if n > 0 {
      AllFines(n - 1);
    }
  }

  lemma AttemptRest(refuses: bool, rs: Records, cs: seq<Challenge>, c: Challenge, script: seq<Fault>)
    ensures var t := TryPublish(refuses, rs, cs, c, script);
            && (forall fault :: fault in t.rest ==> fault in script)
            && (!t.ok && t.added ==> Lost in script)
  {
    hide Fines, Duplicates, NeedsPurge, TxtIds, Purge;
  }

  /** A lost answer: the record stays, and no cleanup knows of it. */
  lemma LostAnswerStays(domain: string, value: string)
    ensures Predict(false, map[], 0, [], [Authorization(Pending, true, domain, value)], [Fine, Lost])
            == Authorized(false, [], Some(Challenge(0, domain, value)), [])
  {
    hide At;
    var script := [Fine, Lost];
    assert TxtIds(map[], domain) == {};
    assert Fines(script, 0) == 0 && Fines(script, 1) == 1;
    assert After(script, 2) == [];
    var c := Challenge(0, domain, value);
    assert NeedsPurge([], domain);
    assert TryPublish(false, map[], [], c, script) == Attempt(false, true, []);
  }

  /** Such a run on an empty zone, whatever the order would have come to: the challenge's record is
      left, and it is all there is. */
  method LostAnswerRun(domain: string, value: string, outcome: Result<string>) returns (zone: Zone, res: Result<string>)
    ensures fresh(zone) && res.Err?
    ensures zone.records == map[0 := Record(domain, "TXT", value)]
  {
    hide Predict, OneSpelling, Kept, PendingNames, Chained;
    zone := new Zone(false, map[], 0, [Fine, Lost]);
    LostAnswerStays(domain, value);
    res := RequestNewCertificate(zone, [Authorization(Pending, true, domain, value)], outcome);
    assert forall id :: id in zone.records <==> id == 0;
  }
}
