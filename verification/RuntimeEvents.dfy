/** Runtime events: several processes measure events into platform registers and append them to
    one log, under a system-wide lock. */
module RuntimeEvents {
  import opened Common
  import opened Text
  import Utf8

  datatype Version = V1 | V2

  datatype Event = Event(name: string, payload: ByteString, version: Version)

  datatype TeeVariant = DstackTdx | DstackGcpTdx | DstackNitroEnclave | DstackAmdSevSnp | DstackAwsNitroTpm

  type Hash = ByteString -> ByteString

  type Json = (string, ByteString) -> ByteString

  /** The hashes, and canonical JSON (RFC 8785) of a name and a payload. */
  datatype Config = Config(
    variant: TeeVariant,
    sha384: Hash,
    sha256: Hash,
    json: Json)

  const DSTACK_RUNTIME_EVENT_TYPE := 0x0800_0001

  function Preimage(json: Json, e: Event): ByteString {
    match e.version
    case V1 => Le(DSTACK_RUNTIME_EVENT_TYPE, 4) + [0x3a] + Utf8.Encode(e.name) + [0x3a] + e.payload
    case V2 => json(e.name, e.payload)
  }

  // ----- replay -----

  /** What is hashed to extend a register by the digest of `e`, */
  function ExtendInput(h: Hash, json: Json, mr: ByteString, e: Event): ByteString {
    mr + h(Preimage(json, e))
  }

  /** and what the register holds then. */
  function Extend(h: Hash, json: Json, mr: ByteString, e: Event): ByteString {
    h(ExtendInput(h, json, mr, e))
  }

  function Replay(h: Hash, json: Json, zero: ByteString, events: seq<Event>): ByteString {
    if events == [] then zero
    else Extend(h, json, Replay(h, json, zero, events[..|events| - 1]), events[|events| - 1])
  }

  lemma ReplayNext(h: Hash, json: Json, zero: ByteString, events: seq<Event>, e: Event)
    ensures Replay(h, json, zero, events + [e]) == Extend(h, json, Replay(h, json, zero, events), e)
  {
    hide Extend;
    assert (events + [e])[..|events|] == events;
  }

  /** The events up to and including the first one called `name`; all of them if there is none. */
  function UpTo(events: seq<Event>, name: Option<string>): (r: seq<Event>)
    ensures r <= events
    ensures name.None? ==> r == events
    ensures forall i :: 0 <= i < |r| - 1 ==> name != Some(r[i].name)
    ensures r < events ==> r != [] && name == Some(r[|r| - 1].name)
  {
    if events == [] then []
    else if name == Some(events[0].name) then [events[0]]
    else [events[0]] + UpTo(events[1..], name)
  }

  lemma UpToBeyond(events: seq<Event>, name: Option<string>, i: nat)
    requires i <= |events| && forall j :: 0 <= j < i ==> name != Some(events[j].name)
    ensures i <= |UpTo(events, name)|
    ensures i < |events| && name == Some(events[i].name) ==> UpTo(events, name) == events[..i + 1]
  {
    var r := UpTo(events, name);
    hide UpTo;
    assert forall j :: 0 <= j < |r| ==> r[j] == events[j];
  }

  /** `replay_events`. */
  method ReplayEvents(h: Hash, json: Json, zero: ByteString, events: seq<Event>, toEvent: Option<string>)
    returns (mr: ByteString)
    ensures mr == Replay(h, json, zero, UpTo(events, toEvent))
  {
    hide Extend, UpTo, Replay;
    mr := zero;
    ReplayNothing(h, json, zero);
    for i := 0 to |events|
      invariant mr == Replay(h, json, zero, events[..i])
      invariant forall j :: 0 <= j < i ==> toEvent != Some(events[j].name)
    {
      ReplayNext(h, json, zero, events[..i], events[i]);
      assert events[..i] + [events[i]] == events[..i + 1];
      mr := Extend(h, json, mr, events[i]);
      if toEvent == Some(events[i].name) {
        UpToBeyond(events, toEvent, i);
        return;
      }
    }
    UpToBeyond(events, toEvent, |events|);
    assert events[..|events|] == events == UpTo(events, toEvent);
  }

  lemma ReplayNothing(h: Hash, json: Json, zero: ByteString)
    ensures Replay(h, json, zero, []) == zero
  {
  }

  // ----- the protocol -----

  type Pid = nat

  datatype Request = Emit(name: string, payload: ByteString) | SetVersion(version: Version)

  /** Where a process is; from `Locked` on it holds the lock. `Measuring` counts the registers done. */
  datatype Phase = Idle | Waiting(request: Request) | Locked(request: Request) | Measuring(event: Event, stage: nat)

  /** A register with, for the record, the events it was extended by. */
  datatype Register = Register(value: ByteString, measured: seq<Event>)

  datatype State = State(
    lock: Option<Pid>,
    versionFile: Option<string>,
    rtmr3: Register,
    pcr14: Register,
    log: seq<Event>,
    phases: map<Pid, Phase>)

  /** What a device or file call does: work, fail without effect, or fail after its effect. */
  datatype Outcome = Works | Refuses | Breaks

  datatype Step =
    | Ask(p: Pid, request: Request)
    | Acquire(p: Pid)
    | Configure(p: Pid, outcome: Outcome)
    | ReadVersion(p: Pid)
    | ExtendTdx(p: Pid, outcome: Outcome)
    | ExtendTpm(p: Pid, outcome: Outcome)
    | Append(p: Pid, outcome: Outcome)
    | Crash(p: Pid)

  predicate HasTdx(v: TeeVariant) {
    v == DstackTdx || v == DstackGcpTdx
  }

  predicate HasTpm(v: TeeVariant) {
    v == DstackGcpTdx || v == DstackAwsNitroTpm
  }

  /** The bank of PCR 14: SHA-256 on Google's vTPM, SHA-384 on NitroTPM. */
  function TpmHash(c: Config): Hash {
    if c.variant == DstackGcpTdx then c.sha256 else c.sha384
  }

  const RTMR_ZERO := Zeros(48)

  function PcrZero(c: Config): ByteString {
    if c.variant == DstackGcpTdx then Zeros(32) else Zeros(48)
  }

  function PhaseOf(s: State, p: Pid): Phase {
    if p in s.phases then s.phases[p] else Idle
  }

  predicate Holding(ph: Phase) {
    ph.Locked? || ph.Measuring?
  }

  function VersionText(v: Version): string {
    if v == V1 then "1" else "2"
  }

  function ParseVersion(file: Option<string>): Option<Version> {
    if file.None? then None
    else if Trim(file.value) == "1" then Some(V1)
    else if Trim(file.value) == "2" then Some(V2)
    else None
  }

  function Go(s: State, p: Pid, ph: Phase): State {
    s.(phases := s.phases[p := ph])
  }

  /** The holder leaves; closing the file releases the lock. */
  function Leave(s: State, p: Pid): State {
    s.(phases := s.phases[p := Idle], lock := None)
  }

  function Measure(h: Hash, json: Json, r: Register, e: Event): Register {
    Register(Extend(h, json, r.value, e), r.measured + [e])
  }

  function Init(c: Config): State {
    State(None, None, Register(RTMR_ZERO, []), Register(PcrZero(c), []), [], map[])
  }

  /** One step; a step that is not possible in `s` changes nothing. */
  function Do(c: Config, s: State, step: Step): State {
    var ph := PhaseOf(s, step.p);
    match step
    case Ask(p, request) => if ph.Idle? then Go(s, p, Waiting(request)) else s
    case Acquire(p) => if ph.Waiting? && s.lock.None? then Go(s.(lock := Some(p)), p, Locked(ph.request)) else s
    case Configure(p, outcome) =>
      if ph.Locked? && ph.request.SetVersion? then DoConfigure(s, p, ph.request.version, outcome) else s
    case ReadVersion(p) => if ph.Locked? && ph.request.Emit? then DoReadVersion(s, p, ph.request) else s
    case ExtendTdx(p, outcome) => if ph.Measuring? && ph.stage == 0 then DoExtendTdx(c, s, p, ph.event, outcome) else s
    case ExtendTpm(p, outcome) => if ph.Measuring? && ph.stage == 1 then DoExtendTpm(c, s, p, ph.event, outcome) else s
    case Append(p, outcome) => if ph.Measuring? && ph.stage == 2 then DoAppend(s, p, ph.event, outcome) else s
    case Crash(p) => if Holding(ph) then Leave(s, p) else Go(s, p, Idle)
  }

  /** `set_runtime_event_version_file`: set once, repeat freely, never change. */
  function DoConfigure(s: State, p: Pid, v: Version, outcome: Outcome): State {
    if s.versionFile.None? && outcome != Refuses then Leave(s.(versionFile := Some(VersionText(v))), p) else Leave(s, p)
  }

  function DoReadVersion(s: State, p: Pid, request: Request): State
    requires request.Emit?
  {
    match ParseVersion(s.versionFile)
    case None => Leave(s, p)
    case Some(v) => Go(s, p, Measuring(Event(request.name, request.payload, v), 0))
  }

  function DoExtendTdx(c: Config, s: State, p: Pid, e: Event, outcome: Outcome): State {
    if !HasTdx(c.variant) then Go(s, p, Measuring(e, 1))
    else
      var done := if outcome == Refuses then s else s.(rtmr3 := Measure(c.sha384, c.json, s.rtmr3, e));
      if outcome == Works then Go(done, p, Measuring(e, 1)) else Leave(done, p)
  }

  function DoExtendTpm(c: Config, s: State, p: Pid, e: Event, outcome: Outcome): State {
    if !HasTpm(c.variant) then Go(s, p, Measuring(e, 2))
    else
      var done := if outcome == Refuses then s else s.(pcr14 := Measure(TpmHash(c), c.json, s.pcr14, e));
      if outcome == Works then Go(done, p, Measuring(e, 2)) else Leave(done, p)
  }

  /** The append is one write; it reaches the log or it does not. */
  function DoAppend(s: State, p: Pid, e: Event, outcome: Outcome): State {
    Leave(if outcome == Refuses then s else s.(log := s.log + [e]), p)
  }

  function Run(c: Config, steps: seq<Step>): State {
    if steps == [] then Init(c) else Do(c, Run(c, steps[..|steps| - 1]), steps[|steps| - 1])
  }

  // ----- subsequences -----

  /** `a` is `b` with some elements left out. */
  predicate Subsequence<T(==)>(a: seq<T>, b: seq<T>) {
    if a == [] then true
    else if b == [] then false
    else
      || (a[|a| - 1] == b[|b| - 1] && Subsequence(a[..|a| - 1], b[..|b| - 1]))
      || Subsequence(a, b[..|b| - 1])
  }

  lemma SubsequenceMore<T>(a: seq<T>, b: seq<T>, x: T)
    requires Subsequence(a, b)
    ensures Subsequence(a, b + [x]) && Subsequence(a + [x], b + [x])
  {
    assert (b + [x])[..|b|] == b && (a + [x])[..|a|] == a;
  }

  lemma {:induction false} SubsequenceLess<T>(a: seq<T>, x: T, b: seq<T>)
    requires Subsequence(a + [x], b)
    ensures Subsequence(a, b)
    decreases |b|
  {
    assert (a + [x])[..|a|] == a;
    var init := b[..|b| - 1];
    assert b == init + [b[|b| - 1]];
    if Subsequence(a + [x], init) {
      SubsequenceLess(a, x, init);
    }
    SubsequenceMore(a, init, b[|b| - 1]);
  }

  // ----- what every step keeps -----

  ghost predicate Mutex(s: State) {
    forall p: Pid :: Holding(PhaseOf(s, p)) <==> s.lock == Some(p)
  }

  /** The log, and the event in flight once `k` registers are behind it. */
  function Pending(s: State, k: nat): seq<Event> {
    if s.lock.None? then s.log
    else
      var ph := PhaseOf(s, s.lock.value);
      if ph.Measuring? && ph.stage >= k then s.log + [ph.event] else s.log
  }

  /** One version for all events, and none before it is set. */
  ghost predicate AllVersioned(events: seq<Event>, file: Option<string>) {
    && (file.None? ==> events == [])
    && (forall i :: 0 <= i < |events| ==> ParseVersion(file) == Some(events[i].version))
  }

  ghost predicate Versioned(s: State) {
    AllVersioned(Pending(s, 0), s.versionFile)
  }

  ghost predicate TdxReplays(c: Config, s: State) {
    s.rtmr3.value == Replay(c.sha384, c.json, RTMR_ZERO, s.rtmr3.measured)
  }

  ghost predicate TpmReplays(c: Config, s: State) {
    s.pcr14.value == Replay(TpmHash(c), c.json, PcrZero(c), s.pcr14.measured)
  }

  /** The log is in the order of each configured register, with nothing it has not measured. */
  ghost predicate Ordered(c: Config, s: State) {
    && (HasTdx(c.variant) ==> Subsequence(Pending(s, 1), s.rtmr3.measured))
    && (HasTpm(c.variant) ==> Subsequence(Pending(s, 2), s.pcr14.measured))
  }

  ghost predicate Inv(c: Config, s: State) {
    Mutex(s) && Versioned(s) && TdxReplays(c, s) && TpmReplays(c, s) && Ordered(c, s)
  }

  lemma MutexStep(c: Config, s: State, step: Step)
    requires Mutex(s)
    ensures Mutex(Do(c, s, step))
  {
    hide ParseVersion, Measure, VersionText;
    var s' := Do(c, s, step);
    forall p: Pid
      ensures Holding(PhaseOf(s', p)) <==> s'.lock == Some(p)
    {
      assert p != step.p ==> PhaseOf(s', p) == PhaseOf(s, p);
    }
  }

  lemma ReplaysStep(c: Config, s: State, step: Step)
    requires TdxReplays(c, s) && TpmReplays(c, s)
    ensures TdxReplays(c, Do(c, s, step)) && TpmReplays(c, Do(c, s, step))
  {
    hide ParseVersion, VersionText, Replay, Extend, PcrZero, TpmHash;
    var ph := PhaseOf(s, step.p);
    if ph.Measuring? {
      ReplayNext(c.sha384, c.json, RTMR_ZERO, s.rtmr3.measured, ph.event);
      ReplayNext(TpmHash(c), c.json, PcrZero(c), s.pcr14.measured, ph.event);
    }
  }

  lemma NoFileNoVersion()
    ensures ParseVersion(None) == None
  {
  }

  predicate NewEvent(before: seq<Event>, after: seq<Event>, file: Option<string>) {
    |after| > 0 && after[..|after| - 1] == before && ParseVersion(file) == Some(after[|after| - 1].version)
  }

  lemma InFlightStep(c: Config, s: State, step: Step)
    requires Mutex(s)
    ensures var s' := Do(c, s, step);
            || Pending(s', 0) == Pending(s, 0)
            || Pending(s', 0) == s.log
            || NewEvent(s.log, Pending(s', 0), s.versionFile)
    ensures s.versionFile.Some? ==> Do(c, s, step).versionFile == s.versionFile
    ensures Do(c, s, step).versionFile != s.versionFile ==> Pending(Do(c, s, step), 0) == s.log
  {
    hide Measure, VersionText, ParseVersion, NewEvent;
    var ph, v := PhaseOf(s, step.p), ParseVersion(s.versionFile);
    assert Holding(ph) <==> s.lock == Some(step.p);
    if step.ReadVersion? && ph.Locked? && ph.request.Emit? && v.Some? {
      IsNewEvent(s.log, Event(ph.request.name, ph.request.payload, v.value), s.versionFile);
    }
  }

  lemma IsNewEvent(log: seq<Event>, e: Event, file: Option<string>)
    requires ParseVersion(file) == Some(e.version)
    ensures NewEvent(log, log + [e], file)
  {
    hide ParseVersion;
    assert (log + [e])[..|log|] == log;
  }

  lemma VersionedAgain(before: seq<Event>, log: seq<Event>, after: seq<Event>, file: Option<string>, file': Option<string>)
    requires log <= before && AllVersioned(before, file)
    requires after == before || after == log || NewEvent(log, after, file)
    requires (file.Some? ==> file' == file) && (file' != file ==> after == log)
    ensures AllVersioned(after, file')
  {
    NoFileNoVersion();
    hide ParseVersion;
    assert forall i :: 0 <= i < |log| ==> log[i] == before[i];
  }

  lemma LogInFlight(s: State)
    ensures s.log <= Pending(s, 0)
  {
  }

  /** New events carry the configured version, which never changes once set. */
  lemma VersionedStep(c: Config, s: State, step: Step)
    requires Mutex(s) && Versioned(s)
    ensures Versioned(Do(c, s, step))
    ensures s.versionFile.Some? ==> Do(c, s, step).versionFile == s.versionFile
  {
    hide Do, Pending, Mutex, NewEvent, AllVersioned;
    LogInFlight(s);
    InFlightStep(c, s, step);
    var s' := Do(c, s, step);
    VersionedAgain(Pending(s, 0), s.log, Pending(s', 0), s.versionFile, s'.versionFile);
  }

  /** Nothing failed and no process died. */
  predicate Fine(step: Step) {
    match step
    case Crash(_) => false
    case Configure(_, outcome) => outcome == Works
    case ExtendTdx(_, outcome) => outcome == Works
    case ExtendTpm(_, outcome) => outcome == Works
    case Append(_, outcome) => outcome == Works
    case _ => true
  }

  /** The event in flight passes register `k` in this step. */
  predicate Passes(c: Config, s: State, step: Step, k: nat)
    requires 1 <= k <= 2
  {
    var ph := PhaseOf(s, step.p);
    && s.lock == Some(step.p) && ph.Measuring? && ph.stage == k - 1
    && (if k == 1 then step.ExtendTdx? && (HasTdx(c.variant) ==> step.outcome == Works)
        else step.ExtendTpm? && (HasTpm(c.variant) ==> step.outcome == Works))
  }

  /** What a step may do to the log and the event in flight. */
  lemma PendingStep(c: Config, s: State, step: Step, k: nat)
    requires Mutex(s) && 1 <= k <= 2
    ensures var ph, s' := PhaseOf(s, step.p), Do(c, s, step);
            if Passes(c, s, step, k) then Pending(s, k) == s.log && Pending(s', k) == s.log + [ph.event]
            else Pending(s', k) == Pending(s, k) || (!Fine(step) && Pending(s', k) == s.log)
  {
    hide Measure, VersionText, ParseVersion;
    assert Holding(PhaseOf(s, step.p)) <==> s.lock == Some(step.p);
  }

  /** A register is extended by the event in flight or not at all. */
  lemma RegisterStep(c: Config, s: State, step: Step)
    requires Mutex(s)
    ensures var ph, s' := PhaseOf(s, step.p), Do(c, s, step);
            && (|| s'.rtmr3.measured == s.rtmr3.measured
                || (&& ph.Measuring? && s'.rtmr3.measured == s.rtmr3.measured + [ph.event]
                    && (Fine(step) ==> Passes(c, s, step, 1))))
            && (|| s'.pcr14.measured == s.pcr14.measured
                || (&& ph.Measuring? && s'.pcr14.measured == s.pcr14.measured + [ph.event]
                    && (Fine(step) ==> Passes(c, s, step, 2))))
            && (Passes(c, s, step, 1) && HasTdx(c.variant) ==> s'.rtmr3.measured == s.rtmr3.measured + [ph.event])
            && (Passes(c, s, step, 2) && HasTpm(c.variant) ==> s'.pcr14.measured == s.pcr14.measured + [ph.event])
  {
    hide VersionText, ParseVersion, Extend;
    assert Holding(PhaseOf(s, step.p)) <==> s.lock == Some(step.p);
  }

  lemma LogIsSubsequence(s: State, k: nat, measured: seq<Event>)
    requires Subsequence(Pending(s, k), measured)
    ensures Subsequence(s.log, measured)
  {
    hide Subsequence;
    if Pending(s, k) != s.log {
      SubsequenceLess(s.log, PhaseOf(s, s.lock.value).event, measured);
    }
  }

  /** One register against the log. */
  lemma OrderedRegister(c: Config, s: State, step: Step, k: nat, measured: seq<Event>, measured': seq<Event>)
    requires Mutex(s) && 1 <= k <= 2 && Subsequence(Pending(s, k), measured)
    requires var ph := PhaseOf(s, step.p);
             || measured' == measured
             || (ph.Measuring? && measured' == measured + [ph.event])
    requires Passes(c, s, step, k) ==> measured' == measured + [PhaseOf(s, step.p).event]
    ensures Subsequence(Pending(Do(c, s, step), k), measured')
  {
    hide Subsequence, Do, PhaseOf, Passes;
    PendingStep(c, s, step, k);
    LogIsSubsequence(s, k, measured);
    if measured' != measured {
      var e := PhaseOf(s, step.p).event;
      SubsequenceMore(Pending(s, k), measured, e);
      SubsequenceMore(s.log, measured, e);
    }
  }

  lemma OrderedStep(c: Config, s: State, step: Step)
    requires Mutex(s) && Ordered(c, s)
    ensures Ordered(c, Do(c, s, step))
  {
    hide Subsequence, Do, PhaseOf, Passes, Pending, Mutex;
    RegisterStep(c, s, step);
    if HasTdx(c.variant) {
      OrderedRegister(c, s, step, 1, s.rtmr3.measured, Do(c, s, step).rtmr3.measured);
    }
    if HasTpm(c.variant) {
      OrderedRegister(c, s, step, 2, s.pcr14.measured, Do(c, s, step).pcr14.measured);
    }
  }

  /** Each configured register has measured the log and, in its turn, the event in flight. */
  ghost predicate InStep(c: Config, s: State) {
    && (HasTdx(c.variant) ==> s.rtmr3.measured == Pending(s, 1))
    && (HasTpm(c.variant) ==> s.pcr14.measured == Pending(s, 2))
  }

  lemma InStepStep(c: Config, s: State, step: Step)
    requires Mutex(s) && InStep(c, s) && Fine(step)
    ensures InStep(c, Do(c, s, step))
  {
    hide Do, PhaseOf, Passes, Pending, Mutex;
    RegisterStep(c, s, step);
    PendingStep(c, s, step, 1);
    PendingStep(c, s, step, 2);
  }

  // ----- every run -----

  /** In every run, whatever fails: one writer at a time, one version, registers that replay what
      they measured, and a log that is an in-order subsequence of it. */
  lemma {:induction false} RunKeeps(c: Config, steps: seq<Step>)
    ensures Inv(c, Run(c, steps))
  {
    hide Do, Replay, Mutex, Versioned, TdxReplays, TpmReplays, Ordered;
    if steps == [] {
      InitHolds(c);
    } else {
      var s, last := Run(c, steps[..|steps| - 1]), steps[|steps| - 1];
      RunKeeps(c, steps[..|steps| - 1]);
      MutexStep(c, s, last);
      VersionedStep(c, s, last);
      ReplaysStep(c, s, last);
      OrderedStep(c, s, last);
    }
  }

  lemma InitHolds(c: Config)
    ensures Inv(c, Init(c)) && InStep(c, Init(c))
  {
  }

  lemma {:induction false} FineRunInStep(c: Config, steps: seq<Step>)
    requires forall i :: 0 <= i < |steps| ==> Fine(steps[i])
    ensures InStep(c, Run(c, steps))
  {
    hide Do, Replay, InStep, Fine;
    if steps == [] {
      InitHolds(c);
    } else {
      RunKeeps(c, steps[..|steps| - 1]);
      FineRunInStep(c, steps[..|steps| - 1]);
      InStepStep(c, Run(c, steps[..|steps| - 1]), steps[|steps| - 1]);
    }
  }

  /** In a run where nothing fails, each configured register equals the replay of the log whenever
      the lock is free. */
  lemma ReplayReproduces(c: Config, steps: seq<Step>)
    requires forall i :: 0 <= i < |steps| ==> Fine(steps[i])
    requires Run(c, steps).lock.None?
    ensures var s := Run(c, steps);
            && (HasTdx(c.variant) ==> s.rtmr3.value == Replay(c.sha384, c.json, RTMR_ZERO, s.log))
            && (HasTpm(c.variant) ==> s.pcr14.value == Replay(TpmHash(c), c.json, PcrZero(c), s.log))
  {
    hide Run, Replay, Fine, Mutex, Versioned, Ordered;
    RunKeeps(c, steps);
    FineRunInStep(c, steps);
  }

  // ----- when the log is all a register has measured -----

  /** What register `k` (1 for RTMR3, 2 for PCR 14) has measured. */
  function Measured(s: State, k: nat): seq<Event> {
    if k == 1 then s.rtmr3.measured else s.pcr14.measured
  }

  predicate Configured(c: Config, k: nat) {
    if k == 1 then HasTdx(c.variant) else HasTpm(c.variant)
  }

  /** The step ends an emission that register `k` has measured and the log has not: an extend that
      took effect and failed, or anything but a logged append after the register was extended. */
  predicate Strands(c: Config, s: State, step: Step, k: nat) {
    var ph := PhaseOf(s, step.p);
    && ph.Measuring?
    && match step
       case ExtendTdx(_, outcome) => k == 1 && ph.stage == 0 && outcome == Breaks
       case ExtendTpm(_, outcome) =>
         ph.stage == 1 && HasTpm(c.variant) && (if k == 1 then outcome != Works else outcome == Breaks)
       case Append(_, outcome) => ph.stage == 2 && outcome == Refuses
       case Crash(_) => ph.stage >= k
       case _ => false
  }

  /** How many events register `k` has measured beyond the log and the event in flight. */
  function Stranded(c: Config, steps: seq<Step>, k: nat): nat {
    if steps == [] then 0
    else
      var init, last := steps[..|steps| - 1], steps[|steps| - 1];
      Stranded(c, init, k) + if Strands(c, Run(c, init), last, k) then 1 else 0
  }

  lemma AccountStep(c: Config, s: State, step: Step, k: nat)
    requires Mutex(s) && 1 <= k <= 2 && Configured(c, k)
    ensures var s' := Do(c, s, step);
            |Measured(s', k)| + |Pending(s, k)|
            == |Measured(s, k)| + |Pending(s', k)| + if Strands(c, s, step, k) then 1 else 0
  {
    hide VersionText, ParseVersion, Extend;
    assert Holding(PhaseOf(s, step.p)) <==> s.lock == Some(step.p);
  }

  lemma {:induction false} Accounts(c: Config, steps: seq<Step>, k: nat)
    requires 1 <= k <= 2 && Configured(c, k)
    ensures var s := Run(c, steps); |Measured(s, k)| == |Pending(s, k)| + Stranded(c, steps, k)
  {
    hide Do, Mutex, Strands, Configured;
    if steps == [] {
      InitHolds(c);
    } else {
      var init, last := steps[..|steps| - 1], steps[|steps| - 1];
      Accounts(c, init, k);
      RunKeeps(c, init);
      AccountStep(c, Run(c, init), last, k);
      hide Measured, Pending;
    }
  }

  lemma {:induction false} SubsequenceLength<T>(a: seq<T>, b: seq<T>)
    requires Subsequence(a, b)
    ensures |a| <= |b| && (|a| == |b| ==> a == b)
    decreases |b|
  {
    if a != [] {
      var a', b' := a[..|a| - 1], b[..|b| - 1];
      if a[|a| - 1] == b[|b| - 1] && Subsequence(a', b') {
        SubsequenceLength(a', b');
        assert a == a' + [a[|a| - 1]] && b == b' + [b[|b| - 1]];
      } else {
        SubsequenceLength(a, b');
      }
    }
  }

  /** In every run, whenever the lock is free, a configured register has measured exactly the log if
      and only if no emission it measured ended without being logged. */
  lemma MeasuresTheLogExactly(c: Config, steps: seq<Step>, k: nat)
    requires 1 <= k <= 2 && Configured(c, k) && Run(c, steps).lock.None?
    ensures Measured(Run(c, steps), k) == Run(c, steps).log
            <==> forall i :: 0 <= i < |steps| ==> !Strands(c, Run(c, steps[..i]), steps[i], k)
  {
    hide Run, Replay, Mutex, Versioned, Subsequence, Strands, Stranded;
    Accounts(c, steps, k);
    RunKeeps(c, steps);
    NoneStranded(c, steps, k);
    SubsequenceLength(Run(c, steps).log, Measured(Run(c, steps), k));
  }

  lemma {:induction false} NoneStranded(c: Config, steps: seq<Step>, k: nat)
    ensures Stranded(c, steps, k) == 0
            <==> forall i :: 0 <= i < |steps| ==> !Strands(c, Run(c, steps[..i]), steps[i], k)
  {
    hide Strands, Run;
    if steps != [] {
      var n := |steps| - 1;
      var init := steps[..n];
      NoneStranded(c, init, k);
      assert forall i :: 0 <= i < n ==> init[i] == steps[i] && init[..i] == steps[..i];
    }
  }

  /** So harmless failures do not matter: without a stranded event the register replays the log. */
  lemma ReplayDespiteFailures(c: Config, steps: seq<Step>)
    requires Run(c, steps).lock.None?
    ensures var s := Run(c, steps);
            && (HasTdx(c.variant) && Stranded(c, steps, 1) == 0 ==>
                  s.rtmr3.value == Replay(c.sha384, c.json, RTMR_ZERO, s.log))
            && (HasTpm(c.variant) && Stranded(c, steps, 2) == 0 ==>
                  s.pcr14.value == Replay(TpmHash(c), c.json, PcrZero(c), s.log))
  {
    hide Run, Replay, Mutex, Versioned, Strands, Ordered;
    RunKeeps(c, steps);
    if HasTdx(c.variant) {
      NoneStranded(c, steps, 1);
      MeasuresTheLogExactly(c, steps, 1);
    }
    if HasTpm(c.variant) {
      NoneStranded(c, steps, 2);
      MeasuresTheLogExactly(c, steps, 2);
    }
    hide Stranded;
  }

  // ----- what a stranded event does to the register -----

  /** What the `i`-th extend of a replay hashes. */
  function InputAt(h: Hash, json: Json, zero: ByteString, events: seq<Event>, i: nat): ByteString
    requires i < |events|
  {
    ExtendInput(h, json, Replay(h, json, zero, events[..i]), events[i])
  }

  /** Extend `i` of the shorter replay and the one as far from the end of the longer replay hash
      different bytes to one value. */
  ghost predicate ExtendsCollide(h: Hash, json: Json, zero: ByteString, long: seq<Event>, short: seq<Event>, i: nat) {
    && i < |short| <= |long|
    && Collision(h, InputAt(h, json, zero, long, |long| - |short| + i), InputAt(h, json, zero, short, i))
  }

  /** Digests are `n` bytes long. */
  ghost predicate Sized(h: Hash, n: nat) {
    forall b :: |h(b)| == n
  }

  ghost predicate DigestLengths(c: Config) {
    Sized(c.sha384, 48) && Sized(c.sha256, 32)
  }

  lemma LastExtend(h: Hash, json: Json, zero: ByteString, events: seq<Event>)
    requires events != []
    ensures Replay(h, json, zero, events) == h(InputAt(h, json, zero, events, |events| - 1))
  {
  }

  lemma SameExtends(h: Hash, json: Json, mr: ByteString, e: Event, mr': ByteString, e': Event, n: nat)
    requires Sized(h, n) && ExtendInput(h, json, mr, e) == ExtendInput(h, json, mr', e')
    ensures mr == mr'
  {
    hide Preimage;
    SameTail(mr, h(Preimage(json, e)), mr', h(Preimage(json, e')));
  }

  lemma CollideLater(
    h: Hash, json: Json, zero: ByteString, long: seq<Event>, short: seq<Event>, i: nat)
    requires short != [] && long != []
    requires ExtendsCollide(h, json, zero, long[..|long| - 1], short[..|short| - 1], i)
    ensures ExtendsCollide(h, json, zero, long, short, i)
  {
    hide ExtendInput, Replay;
    var k := |long| - |short| + i;
    assert long[..|long| - 1][..k] == long[..k] && short[..|short| - 1][..i] == short[..i];
  }

  /** Two replays that end alike: the shorter one is the end of the longer one, or two extends collide. */
  lemma {:induction false} ReplaysAlike(
    h: Hash, json: Json, zero: ByteString, long: seq<Event>, short: seq<Event>, n: nat)
    requires Sized(h, n) && |short| <= |long|
    requires Replay(h, json, zero, long) == Replay(h, json, zero, short)
    ensures || Replay(h, json, zero, long[..|long| - |short|]) == zero
            || exists i :: ExtendsCollide(h, json, zero, long, short, i)
    decreases |short|
  {
    if short == [] {
      ReplayNothing(h, json, zero);
      assert long[..|long|] == long;
    } else {
      var l, s := |long| - 1, |short| - 1;
      LastExtend(h, json, zero, long);
      LastExtend(h, json, zero, short);
      if InputAt(h, json, zero, long, l) != InputAt(h, json, zero, short, s) {
        assert ExtendsCollide(h, json, zero, long, short, s);
      } else {
        SameExtends(h, json, Replay(h, json, zero, long[..l]), long[l], Replay(h, json, zero, short[..s]), short[s], n);
        hide Replay, ExtendsCollide, Sized;
        var long', short' := long[..l], short[..s];
        ReplaysAlike(h, json, zero, long', short', n);
        assert long'[..|long'| - |short'|] == long[..|long| - |short|];
        if i: nat :| ExtendsCollide(h, json, zero, long', short', i) {
          CollideLater(h, json, zero, long, short, i);
        }
      }
    }
  }

  function HashOf(c: Config, k: nat): Hash {
    if k == 1 then c.sha384 else TpmHash(c)
  }

  function ZeroOf(c: Config, k: nat): ByteString {
    if k == 1 then RTMR_ZERO else PcrZero(c)
  }

  function ValueOf(s: State, k: nat): ByteString {
    if k == 1 then s.rtmr3.value else s.pcr14.value
  }

  lemma HashIsSized(c: Config, k: nat)
    requires DigestLengths(c)
    ensures Sized(HashOf(c, k), |ZeroOf(c, k)|)
  {
  }

  /** Whenever the lock is free: a register that measured an event the log lacks differs from the
      replay of the log, or two extends, named, collide, or its first extends lead back to the
      value it started from. */
  lemma StrandedShows(c: Config, steps: seq<Step>, k: nat)
    requires DigestLengths(c) && 1 <= k <= 2 && Configured(c, k)
    requires Run(c, steps).lock.None? && Stranded(c, steps, k) > 0
    ensures var s, h, zero := Run(c, steps), HashOf(c, k), ZeroOf(c, k);
            && |s.log| < |Measured(s, k)|
            && (|| ValueOf(s, k) != Replay(h, c.json, zero, s.log)
                || Replay(h, c.json, zero, Measured(s, k)[..|Measured(s, k)| - |s.log|]) == zero
                || exists i :: ExtendsCollide(h, c.json, zero, Measured(s, k), s.log, i))
  {
    hide Run, Replay, Mutex, Versioned, Ordered, Stranded, Sized, ExtendsCollide, TpmHash, PcrZero;
    RunKeeps(c, steps);
    Accounts(c, steps, k);
    HashIsSized(c, k);
    var s := Run(c, steps);
    if ValueOf(s, k) == Replay(HashOf(c, k), c.json, ZeroOf(c, k), s.log) {
      ReplaysAlike(HashOf(c, k), c.json, ZeroOf(c, k), Measured(s, k), s.log, |ZeroOf(c, k)|);
    }
  }

  /** A version is set, then a device takes effect and reports a failure. */
  function StrandingSteps(name: string, payload: ByteString): seq<Step> {
    [Ask(0, SetVersion(V1)), Acquire(0), Configure(0, Works),
     Ask(0, Emit(name, payload)), Acquire(0), ReadVersion(0), ExtendTdx(0, Breaks)]
  }

  /** Nothing is measured or logged, and process 0 is in this phase. */
  ghost predicate Untouched(c: Config, s: State, lock: Option<Pid>, file: Option<string>, ph: Phase) {
    && s.lock == lock && s.versionFile == file && PhaseOf(s, 0) == ph
    && s.rtmr3 == Register(RTMR_ZERO, []) && s.log == []
  }

  lemma RunNext(c: Config, steps: seq<Step>, i: nat)
    requires i < |steps|
    ensures Run(c, steps[..i + 1]) == Do(c, Run(c, steps[..i]), steps[i])
  {
    hide Do;
    assert steps[..i + 1][..i] == steps[..i];
  }

  lemma VersionIsSet(c: Config, steps: seq<Step>)
    requires |steps| >= 3 && steps[..3] == [Ask(0, SetVersion(V1)), Acquire(0), Configure(0, Works)]
    ensures Untouched(c, Run(c, steps[..3]), None, Some(VersionText(V1)), Idle)
  {
    hide Run, Measure, VersionText, ParseVersion;
    RunNext(c, steps, 0);
    RunNext(c, steps, 1);
    RunNext(c, steps, 2);
    assert steps[0] == steps[..3][0] && steps[1] == steps[..3][1] && steps[2] == steps[..3][2];
    RunNothing(c, steps);
    assert Untouched(c, Run(c, steps[..1]), None, None, Waiting(SetVersion(V1)));
    assert Untouched(c, Run(c, steps[..2]), Some(0), None, Locked(SetVersion(V1)));
  }

  lemma RunNothing(c: Config, steps: seq<Step>)
    ensures Untouched(c, Run(c, steps[..0]), None, None, Idle)
  {
  }

  lemma VersionReads()
    ensures ParseVersion(Some("1")) == Some(V1) && VersionText(V1) == "1"
    ensures ParseVersion(Some("2")) == Some(V2) && VersionText(V2) == "2"
  {
    assert Trim("1") == "1" && Trim("2") == "2";
  }

  /** Such a run: the register has measured an event that is not in the log. */
  lemma FailedExtendStrands(c: Config, name: string, payload: ByteString)
    requires HasTdx(c.variant)
    ensures var s, e := Run(c, StrandingSteps(name, payload)), Event(name, payload, V1);
            && s.lock.None? && s.log == [] && s.rtmr3.measured == [e]
            && s.rtmr3.value == Extend(c.sha384, c.json, RTMR_ZERO, e)
  {
    hide Run, Extend, VersionText, ParseVersion;
    var steps, file := StrandingSteps(name, payload), Some(VersionText(V1));
    VersionIsSet(c, steps);
    VersionReads();
    RunNext(c, steps, 3);
    RunNext(c, steps, 4);
    RunNext(c, steps, 5);
    RunNext(c, steps, 6);
    assert Untouched(c, Run(c, steps[..4]), None, file, Waiting(Emit(name, payload)));
    assert Untouched(c, Run(c, steps[..5]), Some(0), file, Locked(Emit(name, payload)));
    assert Untouched(c, Run(c, steps[..6]), Some(0), file, Measuring(Event(name, payload, V1), 0));
    assert steps[..7] == steps;
  }

  /** Lock taken, version read: the event is ready to be measured. */
  lemma EmissionBegins(c: Config, s: State, p: Pid, name: string, payload: ByteString, version: Version)
    requires PhaseOf(s, p).Idle? && s.lock.None? && s.versionFile == Some(if version == V1 then "1" else "2")
    ensures var s' := Do(c, Do(c, Do(c, s, Ask(p, Emit(name, payload))), Acquire(p)), ReadVersion(p));
            && PhaseOf(s', p) == Measuring(Event(name, payload, version), 0)
            && s'.log == s.log && s'.rtmr3 == s.rtmr3 && s'.pcr14 == s.pcr14 && s'.versionFile == s.versionFile
  {
    VersionReads();
    hide ParseVersion, Measure;
  }

  /** A whole emission in which nothing fails: RTMR3 is extended by the SHA-384 digest of the preimage on
      TDX and on Google's TDX, PCR 14 by the SHA-256 digest on Google's TDX and by the SHA-384 digest on
      NitroTPM, no register anywhere else, and the event is logged. */
  lemma EmissionMeasures(c: Config, s: State, p: Pid, name: string, payload: ByteString, version: Version)
    requires PhaseOf(s, p).Idle? && s.lock.None? && s.versionFile == Some(if version == V1 then "1" else "2")
    ensures var ready := Do(c, Do(c, Do(c, s, Ask(p, Emit(name, payload))), Acquire(p)), ReadVersion(p));
            var s' := Do(c, Do(c, Do(c, ready, ExtendTdx(p, Works)), ExtendTpm(p, Works)), Append(p, Works));
            var e := Event(name, payload, version);
            var preimage := Preimage(c.json, e);
            && s'.lock.None? && PhaseOf(s', p).Idle? && s'.log == s.log + [e]
            && s'.rtmr3 == (if c.variant == DstackTdx || c.variant == DstackGcpTdx
                            then Register(c.sha384(s.rtmr3.value + c.sha384(preimage)), s.rtmr3.measured + [e])
                            else s.rtmr3)
            && s'.pcr14 == (if c.variant == DstackGcpTdx
                            then Register(c.sha256(s.pcr14.value + c.sha256(preimage)), s.pcr14.measured + [e])
                            else if c.variant == DstackAwsNitroTpm
                            then Register(c.sha384(s.pcr14.value + c.sha384(preimage)), s.pcr14.measured + [e])
                            else s.pcr14)
  {
    hide Preimage, ParseVersion;
    var ready := Do(c, Do(c, Do(c, s, Ask(p, Emit(name, payload))), Acquire(p)), ReadVersion(p));
    EmissionBegins(c, s, p, name, payload, version);
    MeasuringEnds(c, ready, p, Event(name, payload, version));
  }

  lemma MeasuringEnds(c: Config, s: State, p: Pid, e: Event)
    requires PhaseOf(s, p) == Measuring(e, 0)
    ensures var s' := Do(c, Do(c, Do(c, s, ExtendTdx(p, Works)), ExtendTpm(p, Works)), Append(p, Works));
            && s'.lock.None? && PhaseOf(s', p).Idle? && s'.log == s.log + [e]
            && s'.rtmr3 == (if HasTdx(c.variant) then Measure(c.sha384, c.json, s.rtmr3, e) else s.rtmr3)
            && s'.pcr14 == (if HasTpm(c.variant) then Measure(TpmHash(c), c.json, s.pcr14, e) else s.pcr14)
  {
    hide Measure;
  }

  /** The registers start from zeros, 32 bytes in a SHA-256 bank and 48 otherwise. */
  lemma StartsFromZeros(c: Config)
    ensures Init(c).rtmr3 == Register(seq(48, _ => 0), []) && Init(c).log == []
    ensures Init(c).pcr14 == Register(seq(if c.variant == DstackGcpTdx then 32 else 48, _ => 0), [])
  {
  }

  /** In every run the log is an in-order part of what each configured register measured, all of
      its events carry the version on file, and nothing is logged before a version is set. */
  lemma LogIsMeasured(c: Config, steps: seq<Step>)
    ensures var s := Run(c, steps);
            && (HasTdx(c.variant) ==> Subsequence(s.log, s.rtmr3.measured))
            && (HasTpm(c.variant) ==> Subsequence(s.log, s.pcr14.measured))
            && (forall i :: 0 <= i < |s.log| ==> ParseVersion(s.versionFile) == Some(s.log[i].version))
  {
    hide Run, Replay, Subsequence, Mutex;
    RunKeeps(c, steps);
    var s := Run(c, steps);
    if HasTdx(c.variant) {
      LogIsSubsequence(s, 1, s.rtmr3.measured);
    }
    if HasTpm(c.variant) {
      LogIsSubsequence(s, 2, s.pcr14.measured);
    }
    LogInFlight(s);
    hide Pending;
    assert forall i :: 0 <= i < |s.log| ==> s.log[i] == Pending(s, 0)[i];
  }
}
