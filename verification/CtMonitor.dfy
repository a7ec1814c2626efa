/** The certificate transparency monitor: scanning a newest-first log down to a watermark. */
module CtMonitor {
  import opened Common

  type LogId = nat

  datatype ScanOutcome = ScanOutcome(newLastChecked: Option<LogId>, failures: seq<LogId>, missingWatermark: bool)

  /** The ids in front of the watermark; all of them if it is not there. */
  function Newer(ids: seq<LogId>, watermark: Option<LogId>): (r: seq<LogId>)
    ensures r <= ids
    ensures forall i :: 0 <= i < |r| ==> watermark != Some(r[i])
    ensures r < ids ==> watermark == Some(ids[|r|])
  {
    if ids == [] || watermark == Some(ids[0]) then [] else [ids[0]] + Newer(ids[1..], watermark)
  }

  function Failing(ids: seq<LogId>, passes: LogId -> bool): seq<LogId> {
    if ids == [] then []
    else
      var front, last := Failing(ids[..|ids| - 1], passes), ids[|ids| - 1];
      if passes(last) then front else front + [last]
  }

  /** `scan`: a failing check is recorded and the pass goes on. `visited` lists the ids checked. */
  method Scan(logs: seq<LogId>, lastChecked: Option<LogId>, passes: LogId -> bool)
    returns (outcome: ScanOutcome, visited: seq<LogId>)
    ensures visited == Newer(logs, lastChecked)
    ensures outcome.failures == Failing(visited, passes)
    ensures outcome.newLastChecked == if logs == [] then None else Some(logs[0])
    ensures outcome.missingWatermark <==> lastChecked.Some? && lastChecked.value !in logs
  {
    hide Newer;
    var failures, found := [], false;
    visited := [];
    for i := 0 to |logs|
      invariant !found && visited == logs[..i] && failures == Failing(visited, passes)
      invariant forall j :: 0 <= j < i ==> lastChecked != Some(logs[j])
    {
      if Some(logs[i]) == lastChecked {
        found := true;
        NewerIs(logs, lastChecked, i);
        break;
      }
      assert (visited + [logs[i]])[..i] == visited;
      visited := visited + [logs[i]];
      if !passes(logs[i]) {
        failures := failures + [logs[i]];
      }
    }
    if !found {
      NewerIs(logs, lastChecked, |logs|);
    }
    outcome := ScanOutcome(if logs == [] then None else Some(logs[0]), failures, !found && lastChecked.Some?);
  }

  lemma NewerIs(ids: seq<LogId>, watermark: Option<LogId>, n: nat)
    requires n <= |ids| && forall j :: 0 <= j < n ==> watermark != Some(ids[j])
    requires n < |ids| ==> watermark == Some(ids[n])
    ensures Newer(ids, watermark) == ids[..n]
  {
    var r := Newer(ids, watermark);
    hide Newer;
    assert forall i :: 0 <= i < |r| ==> r[i] == ids[i];
  }

  // ----- many passes over a growing log -----

  function Reverse(ids: seq<LogId>): (r: seq<LogId>)
    ensures |r| == |ids| && forall i :: 0 <= i < |ids| ==> r[i] == ids[|ids| - 1 - i]
  {
    seq(|ids|, i requires 0 <= i < |ids| => ids[|ids| - 1 - i])
  }

  /** The log oldest first, the watermark, and every id checked so far. */
  datatype State = State(log: seq<LogId>, watermark: Option<LogId>, checked: seq<LogId>)

  /** One pass: the log has grown by `added`, and the server returns its newest `count` entries. */
  datatype Pass = Pass(added: seq<LogId>, count: nat)

  function Page(log: seq<LogId>, count: nat): seq<LogId> {
    Reverse(log)[..if count <= |log| then count else |log|]
  }

  function Do(s: State, p: Pass): State {
    var log := s.log + p.added;
    var page := Page(log, p.count);
    State(log, if page == [] then s.watermark else Some(page[0]), s.checked + Newer(page, s.watermark))
  }

  predicate Reports(s: State, p: Pass) {
    s.watermark.Some? && s.watermark.value !in Page(s.log + p.added, p.count)
  }

  function Run(passes: seq<Pass>): State {
    if passes == [] then State([], None, []) else Do(Run(passes[..|passes| - 1]), passes[|passes| - 1])
  }

  predicate Unique(ids: seq<LogId>) {
    forall i, j :: 0 <= i < j < |ids| ==> ids[i] != ids[j]
  }

  /** The log at the last non-empty page: the watermark ends it, and nothing past it is checked. */
  ghost predicate SeenUpTo(s: State, m: nat) {
    && m <= |s.log|
    && (m == 0 ==> s.watermark == None)
    && (m > 0 ==> s.watermark == Some(s.log[m - 1]))
    && AllIn(s.checked, s.log[..m])
    && Unique(s.checked)
  }

  predicate AllIn(ids: seq<LogId>, log: seq<LogId>) {
    forall i :: 0 <= i < |ids| ==> ids[i] in log
  }

  function Least(a: nat, b: nat): nat {
    if a <= b then a else b
  }

  /** A pass checks the newest entries down to the watermark, as far as the page reaches. */
  lemma PassVisits(s: State, p: Pass, m: nat)
    requires SeenUpTo(s, m) && Unique(s.log + p.added)
    ensures var log := s.log + p.added;
            && Newer(Page(log, p.count), s.watermark) == Reverse(log)[..Least(p.count, |log| - m)]
            && (Reports(s, p) <==> m > 0 && p.count <= |log| - m)
  {
    var log := s.log + p.added;
    var page, newer := Page(log, p.count), |log| - m;
    assert forall i :: 0 <= i < |page| ==> page[i] == log[|log| - 1 - i];
    if m > 0 {
      assert s.watermark == Some(log[m - 1]);
      forall i | 0 <= i < newer && i < |page|
        ensures page[i] != log[m - 1]
      {
        assert page[i] == log[|log| - 1 - i];
      }
      if newer < |page| {
        assert page[newer] == log[m - 1];
      }
    }
    NewerIs(page, s.watermark, Least(|page|, newer));
    assert page[..Least(|page|, newer)] == Reverse(log)[..Least(p.count, newer)];
  }

  lemma VisitsAreNew(log: seq<LogId>, m: nat, n: nat, i: nat)
    requires m <= |log| && n <= |log| - m && i < n && Unique(log)
    ensures Reverse(log)[..n][i] in log[m..] && Reverse(log)[..n][i] !in log[..m]
  {
    assert Reverse(log)[..n][i] == log[|log| - 1 - i] == log[m..][|log| - 1 - i - m];
  }

  lemma UniqueAppend(a: seq<LogId>, b: seq<LogId>)
    requires Unique(a) && Unique(b) && forall i :: 0 <= i < |b| ==> b[i] !in a
    ensures Unique(a + b)
  {
    var c := a + b;
    forall i, j | 0 <= i < j < |c|
      ensures c[i] != c[j]
    {
      if i < |a| && |a| <= j {
        assert c[j] == b[j - |a|] && c[i] in a;
      }
    }
  }

  lemma ReverseUnique(log: seq<LogId>, n: nat)
    requires Unique(log) && n <= |log|
    ensures Unique(Reverse(log)[..n])
  {
  }

  lemma CheckedGrows(checked: seq<LogId>, log: seq<LogId>, m: nat, n: nat)
    requires m <= |log| && n <= |log| - m && Unique(log) && Unique(checked) && AllIn(checked, log[..m])
    ensures Unique(checked + Reverse(log)[..n]) && AllIn(checked + Reverse(log)[..n], log)
  {
    var visited := Reverse(log)[..n];
    forall i | 0 <= i < n
      ensures visited[i] in log && visited[i] !in checked
    {
      VisitsAreNew(log, m, n, i);
      assert visited[i] !in log[..m];
    }
    ReverseUnique(log, n);
    hide Reverse;
    UniqueAppend(checked, visited);
    hide Unique;
    forall i | 0 <= i < |checked|
      ensures checked[i] in log
    {
      assert checked[i] in log[..m];
    }
  }

  lemma PassKeeps(s: State, p: Pass, m: nat)
    requires SeenUpTo(s, m) && Unique(s.log + p.added)
    ensures SeenUpTo(Do(s, p), if Page(s.log + p.added, p.count) == [] then m else |s.log + p.added|)
  {
    var log := s.log + p.added;
    PassVisits(s, p, m);
    assert log[..m] == s.log[..m] && log[..|log|] == log;
    CheckedGrows(s.checked, log, m, Least(p.count, |log| - m));
    PageHead(log, p.count);
    hide Newer, Reverse, Unique, AllIn, Page;
    assert Page(log, p.count) == [] ==> s.checked + Reverse(log)[..Least(p.count, |log| - m)] == s.checked;
  }

  lemma PageHead(log: seq<LogId>, count: nat)
    ensures Page(log, count) != [] ==> |log| > 0 && Page(log, count)[0] == log[|log| - 1]
    ensures Page(log, count) == [] <==> count == 0 || log == []
  {
  }

  /** The length of the log when a page last came back non-empty. */
  function Seen(passes: seq<Pass>): nat {
    if passes == [] then 0
    else
      var init, last := passes[..|passes| - 1], passes[|passes| - 1];
      var log := Run(init).log + last.added;
      if Page(log, last.count) == [] then Seen(init) else |log|
  }

  lemma {:induction false} RunSeen(passes: seq<Pass>)
    requires Unique(Run(passes).log)
    ensures SeenUpTo(Run(passes), Seen(passes))
  {
    hide Page, Newer, SeenUpTo;
    if passes == [] {
      NothingSeen();
    } else {
      var init, last := passes[..|passes| - 1], passes[|passes| - 1];
      var log := Run(init).log;
      UniquePrefix(log, last.added);
      RunSeen(init);
      PassKeeps(Run(init), last, Seen(init));
    }
  }

  lemma NothingSeen()
    ensures SeenUpTo(State([], None, []), 0)
  {
  }

  lemma UniquePrefix(a: seq<LogId>, b: seq<LogId>)
    requires Unique(a + b)
    ensures Unique(a)
  {
    assert forall i :: 0 <= i < |a| ==> a[i] == (a + b)[i];
  }

  /** No entry is ever checked twice. */
  lemma NoneTwice(passes: seq<Pass>)
    requires Unique(Run(passes).log)
    ensures Unique(Run(passes).checked)
  {
    hide Run, Seen, Unique;
    RunSeen(passes);
  }

  /** Unless the pass reports a missing watermark, it checks exactly the entries added since the
      previous non-empty page, whatever the checks say. */
  lemma CheckedOnce(passes: seq<Pass>, p: Pass)
    requires Unique(Run(passes).log + p.added) && Seen(passes) > 0 && !Reports(Run(passes), p)
    ensures var s := Run(passes);
            var log := s.log + p.added;
            && Seen(passes) <= |log|
            && Do(s, p).checked == s.checked + Reverse(log[Seen(passes)..])
            && Unique(Do(s, p).checked)
  {
    hide Run, Seen, Newer;
    var s, m := Run(passes), Seen(passes);
    var log := s.log + p.added;
    UniquePrefix(s.log, p.added);
    RunSeen(passes);
    PassVisits(s, p, m);
    PassKeeps(s, p, m);
    assert Reverse(log)[..|log| - m] == Reverse(log[m..]);
  }

  /** A pass reports a missing watermark exactly when its page is no longer than the backlog. */
  lemma MissingExactly(passes: seq<Pass>, p: Pass)
    requires Unique(Run(passes).log + p.added)
    ensures Reports(Run(passes), p)
            <==> Seen(passes) > 0 && p.count <= |Run(passes).log + p.added| - Seen(passes)
  {
    hide Run, Seen, Newer, Reports;
    UniquePrefix(Run(passes).log, p.added);
    RunSeen(passes);
    PassVisits(Run(passes), p, Seen(passes));
  }

  /** The monitor's state between passes. */
  class Monitor {
    var lastChecked: Option<LogId>
    ghost var checked: seq<LogId>

    constructor ()
      ensures lastChecked == None && checked == []
    {
      lastChecked := None;
      checked := [];
    }

    /** `check_new_logs`: the watermark moves before any failure is reported. */
    method CheckNewLogs(ghost log: seq<LogId>, ghost p: Pass, logs: seq<LogId>, passes: LogId -> bool) returns (ok: bool)
      requires logs == Page(log + p.added, p.count)
      modifies this
      ensures State(log + p.added, lastChecked, checked) == Do(State(log, old(lastChecked), old(checked)), p)
      ensures ok <==> !Reports(State(log, old(lastChecked), old(checked)), p)
                      && Failing(Newer(logs, old(lastChecked)), passes) == []
    {
      hide Page, Newer, Failing;
      var outcome, visited := Scan(logs, lastChecked, passes);
      checked := checked + visited;
      if outcome.newLastChecked.Some? {
        lastChecked := outcome.newLastChecked;
      }
      return !outcome.missingWatermark && outcome.failures == [];
    }
  }
}
