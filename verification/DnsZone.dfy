/** A DNS zone behind a provider's API: calls that may fail before or after taking effect. */
module DnsZone {
  import opened Common
  import opened Text

  type Id = nat

  datatype Record = Record(name: string, kind: string, content: string)

  datatype Listed = Listed(id: Id, record: Record)

  type Records = map<Id, Record>

  /** What the network does to one call: nothing, refuse it, or lose the answer after the effect. */
  datatype Fault = Fine | Refused | Lost

  datatype Call = Add(record: Record) | Remove(id: Id)

  /** One call that may change the zone, what the network did to it, and the records before and after. */
  datatype Step = Step(before: Records, call: Call, fault: Fault, after: Records)

  /** The fault that meets the `k`-th call from now; past the script's end every call goes through. */
  function FaultAt(script: seq<Fault>, k: nat): Fault {
    if k < |script| then script[k] else Fine
  }

  /** What is left of the script after `k` calls. */
  function After(script: seq<Fault>, k: nat): seq<Fault> {
    if k <= |script| then script[k..] else []
  }

  /** Names are compared without case and without trailing dots. */
  function Canon(name: string): string {
    Lower(TrimDots(name))
  }

  predicate At(r: Record, name: string) {
    Canon(r.name) == Canon(name)
  }

  /** A record is at a name exactly when the two agree up to the case of their letters and their
      trailing dots. */
  lemma AtIs(r: Record, a: string, dotsA: string, b: string, dotsB: string)
    requires r.name == a + dotsA && Dots(dotsA) && Dots(dotsB)
    requires (a != "" ==> a[|a| - 1] != '.') && (b != "" ==> b[|b| - 1] != '.')
    ensures At(r, b + dotsB) <==> SameLetters(a, b)
  {
    hide TrimDots, Lower, SameLetters;
    TrimsDots(a, dotsA);
    TrimsDots(b, dotsB);
    SameFolds(a, b);
  }

  predicate SameRecord(r: Record, s: Record) {
    At(r, s.name) && r.kind == s.kind && r.content == s.content
  }

  predicate Duplicates(rs: Records, r: Record) {
    exists id :: id in rs && SameRecord(rs[id], r)
  }

  /** `l` lists the records at `name`, each once. */
  ghost predicate Lists(l: seq<Listed>, rs: Records, name: string) {
    && (forall k :: 0 <= k < |l| ==> l[k].id in rs && rs[l[k].id] == l[k].record && At(l[k].record, name))
    && (forall id :: id in rs && At(rs[id], name) ==> exists k :: 0 <= k < |l| && l[k].id == id)
    && (forall j, k :: 0 <= j < k < |l| ==> l[j].id != l[k].id)
  }

  /** While a list is worked through: from position `k` on it is still accurate, and no record that
      has to go is missing from it. */
  ghost predicate Remaining(l: seq<Listed>, k: nat, rs: Records, goes: Listed -> bool) {
    && k <= |l|
    && (forall i, j :: 0 <= i < j < |l| ==> l[i].id != l[j].id)
    && (forall i :: k <= i < |l| ==> l[i].id in rs && rs[l[i].id] == l[i].record)
    && (forall id :: id in rs && goes(Listed(id, rs[id])) ==> exists i :: k <= i < |l| && l[i].id == id)
  }

  lemma ListBegins(l: seq<Listed>, rs: Records, name: string, goes: Listed -> bool)
    requires Lists(l, rs, name) && forall x :: goes(x) ==> At(x.record, name)
    ensures Remaining(l, 0, rs, goes)
  {
    hide At;
  }

  lemma ListedRemoved(l: seq<Listed>, k: nat, rs: Records, goes: Listed -> bool)
    requires k < |l| && Remaining(l, k, rs, goes)
    ensures Remaining(l, k + 1, rs - {l[k].id}, goes)
  {
  }

  lemma ListedStays(l: seq<Listed>, k: nat, rs: Records, goes: Listed -> bool)
    requires k < |l| && Remaining(l, k, rs, goes) && !goes(l[k])
    ensures Remaining(l, k + 1, rs, goes)
  {
  }

  ghost predicate Chained(steps: seq<Step>) {
    forall i :: 0 <= i < |steps| - 1 ==> steps[i].after == steps[i + 1].before
  }

  class Zone {
    /** Whether the provider turns down a record it already has. */
    const refusesDuplicates: bool
    var records: Records
    var nextId: Id
    /** What happens to the next calls; past its end every call goes through. */
    var script: seq<Fault>
    ghost var steps: seq<Step>

    /** Ids are never reused, and the steps lead to the present records without a gap. */
    ghost predicate Valid()
      reads this
    {
      && (forall id :: id in records ==> id < nextId)
      && Chained(steps)
      && (steps != [] ==> steps[|steps| - 1].after == records)
    }

    constructor (refusesDuplicates: bool, records: Records, nextId: Id, script: seq<Fault>)
      requires forall id :: id in records ==> id < nextId
      ensures Valid() && this.refusesDuplicates == refusesDuplicates
      ensures this.records == records && this.nextId == nextId && this.script == script && steps == []
    {
      this.refusesDuplicates := refusesDuplicates;
      this.records := records;
      this.nextId := nextId;
      this.script := script;
      steps := [];
    }

    method Next() returns (fault: Fault)
      modifies this`script
      ensures fault == FaultAt(old(script), 0) && script == After(old(script), 1)
    {
      if script == [] {
        return Fine;
      }
      fault := script[0];
      script := script[1..];
    }

    /** The record is added unless the call is refused; the id comes back unless the answer is lost. */
    method AddRecord(r: Record) returns (res: Result<Id>)
      requires Valid()
      modifies this
      ensures Valid() && script == After(old(script), 1)
      ensures steps == old(steps) + [Step(old(records), Add(r), FaultAt(old(script), 0), records)]
      ensures var fault := FaultAt(old(script), 0);
              if fault == Refused || (refusesDuplicates && Duplicates(old(records), r)) then
                res.Err? && records == old(records) && nextId == old(nextId)
              else
                && records == old(records)[old(nextId) := r] && nextId == old(nextId) + 1
                && res == if fault == Lost then Err else Ok(old(nextId))
    {
      var fault := Next();
      if fault == Refused || (refusesDuplicates && Duplicates(records, r)) {
        steps := steps + [Step(records, Add(r), fault, records)];
        return Err;
      }
      steps := steps + [Step(records, Add(r), fault, records[nextId := r])];
      records := records[nextId := r];
      nextId := nextId + 1;
      return if fault == Lost then Err else Ok(nextId - 1);
    }

    /** The record goes unless the call is refused or it is not there. */
    method RemoveRecord(id: Id) returns (res: Result<()>)
      requires Valid()
      modifies this
      ensures Valid() && nextId == old(nextId) && script == After(old(script), 1)
      ensures steps == old(steps) + [Step(old(records), Remove(id), FaultAt(old(script), 0), records)]
      ensures var fault := FaultAt(old(script), 0);
              if fault == Refused || id !in old(records) then res.Err? && records == old(records)
              else records == old(records) - {id} && res == if fault == Lost then Err else Ok(())
    {
      var fault := Next();
      if fault == Refused || id !in records {
        steps := steps + [Step(records, Remove(id), fault, records)];
        return Err;
      }
      steps := steps + [Step(records, Remove(id), fault, records - {id})];
      records := records - {id};
      return if fault == Lost then Err else Ok(());
    }

    /** The records at `name`, in no particular order. */
    method GetRecords(name: string) returns (res: Result<seq<Listed>>)
      modifies this`script
      ensures res.Ok? ==> Lists(res.value, records, name)
      ensures script == After(old(script), 1) && (res.Ok? <==> FaultAt(old(script), 0) == Fine)
    {
      hide At, Chained;
      var fault := Next();
      if fault != Fine {
        return Err;
      }
      var l: seq<Listed> := [];
      var left := records.Keys;
      while left != {}
        invariant left <= records.Keys
        invariant forall k :: 0 <= k < |l| ==> l[k].id in records && l[k].id !in left
        invariant forall k :: 0 <= k < |l| ==> records[l[k].id] == l[k].record && At(l[k].record, name)
        invariant forall id :: id in records && id !in left && At(records[id], name) ==>
                               exists k :: 0 <= k < |l| && l[k].id == id
        invariant forall j, k :: 0 <= j < k < |l| ==> l[j].id != l[k].id
        decreases |left|
      {
        var id :| id in left;
        left := left - {id};
        if At(records[id], name) {
          ghost var l0 := l;
          l := l + [Listed(id, records[id])];
          assert l[|l0|].id == id;
          assert forall k :: 0 <= k < |l0| ==> l[k] == l0[k];
        }
      }
      return Ok(l);
    }
  }
}
