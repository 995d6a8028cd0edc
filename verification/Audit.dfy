/**
 The audit alarm of src/audit.rs: an overflow counter, a sliding window of
 security violations, a run of failed calls, and the halt latch they share.
 Clock readings and the outcome of each journal send are inputs.
 */
module Audit {
  import opened Common
  import opened Lists

  const U32: nat := 0x1_0000_0000
  const U64: nat := 0x1_0000_0000_0000_0000
  const WINDOW_SECS: int := 300

  datatype Policy = Policy(maxEvents: Option<nat>, haltOnOverflow: bool,
                           alarmThreshold: nat, haltOnAlarm: bool) {
    /** The field widths of `AuditPolicy`. */
    predicate Valid() {
      alarmThreshold < U32 && (maxEvents.Some? ==> maxEvents.value < U64)
    }
  }

  /** One event: whether the journal took it and, for a violation, the two clock readings. */
  datatype Ev = Ev(violation: bool, sendOk: bool, cutAt: int, pushAt: int)

  datatype Call =
    | Record(ev: Ev)
    | RecordPair(ev1: Ev, ev2: Ev)
    | RecordOrLog(ev: Ev)
    | RecordOrLogPair(ev1: Ev, ev2: Ev)

  // ------------------------------------------------------- one call, by value

  datatype Snapshot = Snapshot(times: seq<int>, halt: bool, count: nat, failures: nat)

  function AtLeast(cutoff: int): int -> bool { t => t >= cutoff }

  function DoViolation(s: Snapshot, p: Policy, ev: Ev): Snapshot {
    var times := Filter(s.times, AtLeast(ev.cutAt - WINDOW_SECS)) + [ev.pushAt];
    s.(times := times, halt := s.halt || (p.haltOnAlarm && |times| % U32 >= p.alarmThreshold))
  }

  function DoCount(s: Snapshot, p: Policy): Snapshot {
    var count := (s.count + 1) % U64;
    s.(count := count,
       halt := s.halt || (p.haltOnOverflow && p.maxEvents.Some? && count >= p.maxEvents.value))
  }

  function DoRecord(s: Snapshot, p: Policy, ev: Ev): Snapshot {
    if !ev.sendOk then s
    else if ev.violation then DoViolation(DoCount(s, p), p, ev)
    else DoCount(s, p)
  }

  function DoTrack(s: Snapshot, p: Policy, ok: bool): Snapshot {
    if ok then s.(failures := 0)
    else
      var n := (s.failures + 1) % U32;
      s.(failures := n, halt := s.halt || n >= p.alarmThreshold)
  }

  function DoCall(s: Snapshot, p: Policy, call: Call): Snapshot {
    match call
    case Record(ev) => DoRecord(s, p, ev)
    case RecordPair(e1, e2) => DoRecord(DoRecord(s, p, e1), p, e2)
    case RecordOrLog(ev) => DoTrack(DoRecord(s, p, ev), p, ev.sendOk)
    case RecordOrLogPair(e1, e2) =>
      DoTrack(DoRecord(DoRecord(s, p, e1), p, e2), p, e1.sendOk && e2.sendOk)
  }

  // ------------------------------------------------------------ the object

  class AuditState {
    var violationTimes: seq<int>
    var shouldHalt: bool
    var eventCount: nat
    var consecutiveInsertFailures: nat

    function Snap(): Snapshot
      reads this
    {
      Snapshot(violationTimes, shouldHalt, eventCount, consecutiveInsertFailures)
    }

    constructor ()
      ensures Snap() == Snapshot([], false, 0, 0)
    {
      violationTimes, shouldHalt, eventCount, consecutiveInsertFailures := [], false, 0, 0;
    }

    method HandleAlarm(policy: Policy)
      modifies this`shouldHalt
      ensures shouldHalt == (old(shouldHalt) || policy.haltOnAlarm)
    {
      if policy.haltOnAlarm {
        shouldHalt := true;
      }
    }

    method CheckViolation(policy: Policy, ev: Ev)
      modifies this
      ensures Snap() == DoViolation(old(Snap()), policy, ev)
    {
      var cutoff := ev.cutAt - WINDOW_SECS;
      violationTimes := Filter(violationTimes, AtLeast(cutoff));
      violationTimes := violationTimes + [ev.pushAt];
      if |violationTimes| % U32 >= policy.alarmThreshold {
        HandleAlarm(policy);
      }
    }

    method RecordEvent(policy: Policy, ev: Ev) returns (ok: bool)
      modifies this
      ensures ok == ev.sendOk
      ensures Snap() == DoRecord(old(Snap()), policy, ev)
    {
      if !ev.sendOk {
        return false;
      }
      eventCount := (eventCount + 1) % U64;
      if policy.maxEvents.Some? && eventCount >= policy.maxEvents.value {
        if policy.haltOnOverflow {
          shouldHalt := true;
        }
      }
      if ev.violation {
        CheckViolation(policy, ev);
      }
      return true;
    }

    method RecordTwo(policy: Policy, ev1: Ev, ev2: Ev) returns (ok: bool)
      modifies this
      ensures ok == (ev1.sendOk && ev2.sendOk)
      ensures Snap() == DoCall(old(Snap()), policy, RecordPair(ev1, ev2))
    {
      var ok1 := RecordEvent(policy, ev1);
      var ok2 := RecordEvent(policy, ev2);
      return ok1 && ok2;
    }

    method TrackRecordResult(policy: Policy, ok: bool)
      modifies this
      ensures Snap() == DoTrack(old(Snap()), policy, ok)
    {
      if ok {
        consecutiveInsertFailures := 0;
      } else {
        consecutiveInsertFailures := (consecutiveInsertFailures + 1) % U32;
        if consecutiveInsertFailures >= policy.alarmThreshold {
          shouldHalt := true;
        }
      }
    }

    method LogEvent(policy: Policy, ev: Ev)
      modifies this
      ensures Snap() == DoCall(old(Snap()), policy, RecordOrLog(ev))
    {
      var ok := RecordEvent(policy, ev);
      TrackRecordResult(policy, ok);
    }

    method LogTwo(policy: Policy, ev1: Ev, ev2: Ev)
      modifies this
      ensures Snap() == DoCall(old(Snap()), policy, RecordOrLogPair(ev1, ev2))
    {
      var ok := RecordTwo(policy, ev1, ev2);
      TrackRecordResult(policy, ok);
    }
  }

  // ------------------------------------------- what a history says, in full

  /** The state after a history of calls. */
  function After(p: Policy, calls: seq<Call>): Snapshot {
    if calls == [] then Snapshot([], false, 0, 0)
    else DoCall(After(p, calls[..|calls| - 1]), p, calls[|calls| - 1])
  }

  function CallEvents(call: Call): seq<Ev> {
    match call
    case Record(ev) => [ev]
    case RecordOrLog(ev) => [ev]
    case RecordPair(e1, e2) => [e1, e2]
    case RecordOrLogPair(e1, e2) => [e1, e2]
  }

  /** Outcomes of the calls that log failures; a pair is one call. */
  function CallOutcome(call: Call): seq<bool> {
    match call
    case Record(_) => []
    case RecordPair(_, _) => []
    case RecordOrLog(ev) => [ev.sendOk]
    case RecordOrLogPair(e1, e2) => [e1.sendOk && e2.sendOk]
  }

  function Events(calls: seq<Call>): seq<Ev> {
    if calls == [] then [] else Events(calls[..|calls| - 1]) + CallEvents(calls[|calls| - 1])
  }

  function Outcomes(calls: seq<Call>): seq<bool> {
    if calls == [] then [] else Outcomes(calls[..|calls| - 1]) + CallOutcome(calls[|calls| - 1])
  }

  function Recorded(evs: seq<Ev>): nat {
    if evs == [] then 0
    else Recorded(evs[..|evs| - 1]) + if evs[|evs| - 1].sendOk then 1 else 0
  }

  function Violations(evs: seq<Ev>): seq<Ev> {
    if evs == [] then []
    else
      var last := evs[|evs| - 1];
      Violations(evs[..|evs| - 1]) + if last.sendOk && last.violation then [last] else []
  }

  function Pushes(v: seq<Ev>): (r: seq<int>)
    ensures |r| == |v|
  {
    seq(|v|, i requires 0 <= i < |v| => v[i].pushAt)
  }

  /** Clock readings never go back. */
  ghost predicate Monotone(v: seq<Ev>) {
    (forall i :: 0 <= i < |v| ==> v[i].cutAt <= v[i].pushAt)
    && (forall i, j :: 0 <= i < j < |v| ==> v[i].pushAt <= v[j].cutAt)
  }

  /** Violations of the whole log inside the window that ends with the `i`th. */
  ghost function InWindow(v: seq<Ev>, i: nat): seq<int>
    requires i < |v|
  {
    Filter(Pushes(v[..i + 1]), AtLeast(v[i].cutAt - 300))
  }

  /** What the pruned list should hold: the window of the latest violation. */
  ghost function LatestWindow(v: seq<Ev>): seq<int> {
    if v == [] then [] else InWindow(v, |v| - 1)
  }

  function TrailingFailures(outcomes: seq<bool>): nat {
    if outcomes == [] || outcomes[|outcomes| - 1] then 0
    else 1 + TrailingFailures(outcomes[..|outcomes| - 1])
  }

  ghost predicate Overflowed(p: Policy, evs: seq<Ev>) {
    p.haltOnOverflow && p.maxEvents.Some?
    && Recorded(evs) >= 1 && Recorded(evs) >= p.maxEvents.value
  }

  ghost predicate Alarmed(p: Policy, v: seq<Ev>) {
    p.haltOnAlarm && exists i :: 0 <= i < |v| && |InWindow(v, i)| >= p.alarmThreshold
  }

  ghost predicate Unavailable(p: Policy, outcomes: seq<bool>) {
    exists i :: 0 <= i < |outcomes| && !outcomes[i]
      && TrailingFailures(outcomes[..i + 1]) >= p.alarmThreshold
  }

  // ----------------------------------------------------------------- proof

  /** What the four fields hold, in terms of the whole history. */
  ghost predicate Explains(s: Snapshot, p: Policy, evs: seq<Ev>, outcomes: seq<bool>) {
    var v := Violations(evs);
    s.count == Recorded(evs) % U64
    && s.failures == TrailingFailures(outcomes) % U32
    && s.times == LatestWindow(v)
    && (s.halt <==> Overflowed(p, evs) || Alarmed(p, v) || Unavailable(p, outcomes))
  }

  /** Pruning before each push loses nothing the next window needs. */
  lemma WindowStep(v: seq<Ev>, ev: Ev)
    requires Monotone(v + [ev])
    ensures LatestWindow(v + [ev])
         == Filter(LatestWindow(v), AtLeast(ev.cutAt - WINDOW_SECS)) + [ev.pushAt]
    ensures |LatestWindow(v + [ev])| <= |LatestWindow(v)| + 1
  {
    var w, n, cut := v + [ev], |v|, AtLeast(ev.cutAt - WINDOW_SECS);
    assert w[..n + 1] == w && w[n] == ev;
    assert Pushes(w) == Pushes(v) + [ev.pushAt];
    assert w[n].cutAt <= w[n].pushAt;
    FilterAppend(Pushes(v), ev.pushAt, cut);
    if v != [] {
      assert v[..n] == v;
      assert w[n - 1] == v[n - 1];
      assert w[n - 1].cutAt <= w[n - 1].pushAt <= w[n].cutAt;
      FilterFilter(Pushes(v), AtLeast(v[n - 1].cutAt - WINDOW_SECS), cut);
      FilterShorter(LatestWindow(v), cut);
    }
  }

  lemma WindowPrefix(v: seq<Ev>, ev: Ev, i: nat)
    requires i < |v|
    ensures InWindow(v + [ev], i) == InWindow(v, i)
  {
    assert (v + [ev])[..i + 1] == v[..i + 1];
  }

  /** One more violation: the alarm condition gains exactly its own window. */
  lemma AlarmedStep(p: Policy, v: seq<Ev>, ev: Ev)
    ensures Alarmed(p, v + [ev]) <==>
      Alarmed(p, v) || (p.haltOnAlarm && |LatestWindow(v + [ev])| >= p.alarmThreshold)
  {
    var w := v + [ev];
    forall i | 0 <= i < |v| ensures InWindow(w, i) == InWindow(v, i) {
      WindowPrefix(v, ev, i);
    }
    if Alarmed(p, v) {
      var i :| 0 <= i < |v| && |InWindow(v, i)| >= p.alarmThreshold;
      assert |InWindow(w, i)| >= p.alarmThreshold;
    }
  }

  lemma WindowWithoutAlarm(p: Policy, v: seq<Ev>)
    requires p.haltOnAlarm && !Alarmed(p, v)
    ensures v == [] || |LatestWindow(v)| < p.alarmThreshold
  {
    if v != [] {
      assert !(|InWindow(v, |v| - 1)| >= p.alarmThreshold);
    }
  }

  /** The `u32` cast of the length cannot hide the first alarm. */
  lemma ViolationKeeps(s: Snapshot, p: Policy, v: seq<Ev>, ev: Ev)
    requires p.Valid() && Monotone(v + [ev])
    requires s.times == LatestWindow(v)
    requires Alarmed(p, v) ==> s.halt
    ensures DoViolation(s, p, ev).times == LatestWindow(v + [ev])
    ensures DoViolation(s, p, ev).halt <==> s.halt || Alarmed(p, v + [ev])
  {
    WindowStep(v, ev);
    AlarmedStep(p, v, ev);
    if p.haltOnAlarm && !s.halt {
      WindowWithoutAlarm(p, v);
    }
  }

  lemma CountKeeps(s: Snapshot, p: Policy, evs: seq<Ev>, ev: Ev)
    requires p.Valid() && ev.sendOk && s.count == Recorded(evs) % U64
    requires Overflowed(p, evs) ==> s.halt
    ensures var s' := DoCount(s, p);
      s'.count == Recorded(evs + [ev]) % U64
      && (s'.halt <==> s.halt || Overflowed(p, evs + [ev]))
  {
    assert (evs + [ev])[..|evs|] == evs;
    assert Recorded(evs + [ev]) == Recorded(evs) + 1;
    ModNext(Recorded(evs));
  }

  lemma ModNext(x: nat)
    ensures (x % U64 + 1) % U64 == (x + 1) % U64
  {
  }

  lemma ViolationsAppend(evs: seq<Ev>, ev: Ev)
    ensures Violations(evs + [ev]) == if ev.sendOk && ev.violation then Violations(evs) + [ev] else Violations(evs)
    ensures Recorded(evs + [ev]) == Recorded(evs) + if ev.sendOk then 1 else 0
  {
    assert (evs + [ev])[..|evs|] == evs;
  }

  lemma RecordKeeps(s: Snapshot, p: Policy, evs: seq<Ev>, ev: Ev, outcomes: seq<bool>)
    requires p.Valid() && Explains(s, p, evs, outcomes) && Monotone(Violations(evs + [ev]))
    ensures Explains(DoRecord(s, p, ev), p, evs + [ev], outcomes)
  {
    ViolationsAppend(evs, ev);
    if ev.sendOk {
      CountKeeps(s, p, evs, ev);
      if ev.violation {
        CountedViolationKeeps(DoCount(s, p), p, evs, ev, outcomes);
      }
    }
  }

  lemma CountedViolationKeeps(s: Snapshot, p: Policy, evs: seq<Ev>, ev: Ev, outcomes: seq<bool>)
    requires p.Valid() && Monotone(Violations(evs) + [ev])
    requires Violations(evs + [ev]) == Violations(evs) + [ev]
    requires s.count == Recorded(evs + [ev]) % U64
    requires s.failures == TrailingFailures(outcomes) % U32
    requires s.times == LatestWindow(Violations(evs))
    requires s.halt <==> Overflowed(p, evs + [ev]) || Alarmed(p, Violations(evs)) || Unavailable(p, outcomes)
    ensures Explains(DoViolation(s, p, ev), p, evs + [ev], outcomes)
  {
    ViolationKeeps(s, p, Violations(evs), ev);
    AlarmedStep(p, Violations(evs), ev);
  }

  lemma UnavailableStep(p: Policy, outcomes: seq<bool>, ok: bool)
    ensures Unavailable(p, outcomes + [ok]) <==>
      Unavailable(p, outcomes) || (!ok && TrailingFailures(outcomes + [ok]) >= p.alarmThreshold)
  {
    var all := outcomes + [ok];
    assert all[..|outcomes| + 1] == all;
    forall i | 0 <= i < |outcomes| ensures all[..i + 1] == outcomes[..i + 1] && all[i] == outcomes[i] {
    }
    if Unavailable(p, outcomes) {
      var i :| 0 <= i < |outcomes| && !outcomes[i]
        && TrailingFailures(outcomes[..i + 1]) >= p.alarmThreshold;
      assert !all[i] && TrailingFailures(all[..i + 1]) >= p.alarmThreshold;
    }
    if !ok && TrailingFailures(all) >= p.alarmThreshold {
      assert !all[|outcomes|] && TrailingFailures(all[..|outcomes| + 1]) >= p.alarmThreshold;
    }
  }

  lemma TrailWithoutHalt(p: Policy, outcomes: seq<bool>)
    requires !Unavailable(p, outcomes)
    ensures TrailingFailures(outcomes) == 0 || TrailingFailures(outcomes) < p.alarmThreshold
  {
    if TrailingFailures(outcomes) > 0 {
      var n := |outcomes| - 1;
      assert outcomes[..n + 1] == outcomes;
      assert !(0 <= n < |outcomes| && !outcomes[n]
               && TrailingFailures(outcomes[..n + 1]) >= p.alarmThreshold);
    }
  }

  lemma TrackKeeps(s: Snapshot, p: Policy, evs: seq<Ev>, outcomes: seq<bool>, ok: bool)
    requires p.Valid() && Explains(s, p, evs, outcomes)
    ensures Explains(DoTrack(s, p, ok), p, evs, outcomes + [ok])
  {
    var all := outcomes + [ok];
    assert all[..|outcomes|] == outcomes;
    UnavailableStep(p, outcomes, ok);
    if !Unavailable(p, outcomes) {
      TrailWithoutHalt(p, outcomes);
    }
    ModNext32(TrailingFailures(outcomes));
  }

  lemma ModNext32(x: nat)
    ensures (x % U32 + 1) % U32 == (x + 1) % U32
    ensures x + 1 < U32 ==> (x + 1) % U32 == x + 1
  {
  }

  lemma MonotonePrefix(v: seq<Ev>, w: seq<Ev>)
    requires v <= w && Monotone(w)
    ensures Monotone(v)
  {
    assert forall i :: 0 <= i < |v| ==> v[i] == w[i];
  }

  lemma {:induction false} ViolationsGrow(evs: seq<Ev>, more: seq<Ev>)
    ensures Violations(evs) <= Violations(evs + more)
  {
    if more == [] {
      assert evs + more == evs;
    } else {
      var n := |more| - 1;
      ViolationsGrow(evs, more[..n]);
      assert (evs + more)[..|evs| + n] == evs + more[..n];
    }
  }

  lemma {:induction false} HistoryExplains(p: Policy, calls: seq<Call>)
    requires p.Valid() && Monotone(Violations(Events(calls)))
    ensures Explains(After(p, calls), p, Events(calls), Outcomes(calls))
  {
    if calls != [] {
      var n := |calls| - 1;
      var init, call := calls[..n], calls[n];
      var evs, outs := Events(init), Outcomes(init);
      ViolationsGrow(evs, CallEvents(call));
      MonotonePrefix(Violations(evs), Violations(Events(calls)));
      HistoryExplains(p, init);
      CallKeeps(After(p, init), p, evs, outs, call);
    }
  }

  lemma CallKeeps(s: Snapshot, p: Policy, evs: seq<Ev>, outcomes: seq<bool>, call: Call)
    requires p.Valid() && Explains(s, p, evs, outcomes)
    requires Monotone(Violations(evs + CallEvents(call)))
    ensures Explains(DoCall(s, p, call), p, evs + CallEvents(call), outcomes + CallOutcome(call))
  {
    assert outcomes + [] == outcomes;
    match call
    case Record(ev) => RecordKeeps(s, p, evs, ev, outcomes);
    case RecordPair(e1, e2) => PairKeeps(s, p, evs, e1, e2, outcomes);
    case RecordOrLog(ev) =>
      RecordKeeps(s, p, evs, ev, outcomes);
      TrackKeeps(DoRecord(s, p, ev), p, evs + [ev], outcomes, ev.sendOk);
    case RecordOrLogPair(e1, e2) =>
      PairKeeps(s, p, evs, e1, e2, outcomes);
      TrackKeeps(DoRecord(DoRecord(s, p, e1), p, e2), p, evs + [e1, e2], outcomes,
                 e1.sendOk && e2.sendOk);
  }

  lemma PairKeeps(s: Snapshot, p: Policy, evs: seq<Ev>, e1: Ev, e2: Ev, outcomes: seq<bool>)
    requires p.Valid() && Explains(s, p, evs, outcomes) && Monotone(Violations(evs + [e1, e2]))
    ensures Explains(DoRecord(DoRecord(s, p, e1), p, e2), p, evs + [e1, e2], outcomes)
  {
    assert evs + [e1, e2] == (evs + [e1]) + [e2];
    ViolationsGrow(evs + [e1], [e2]);
    MonotonePrefix(Violations(evs + [e1]), Violations(evs + [e1] + [e2]));
    RecordKeeps(s, p, evs, e1, outcomes);
    RecordKeeps(DoRecord(s, p, e1), p, evs + [e1], e2, outcomes);
  }

  /**
   For every history of calls the halt flag is set exactly when the event
   limit was reached under the halt policy, or some violation found threshold
   many in its 300-second window under the halt action, or threshold many
   logged calls failed in a row. No width of a counter changes this.
   */
  lemma HaltExactly(p: Policy, calls: seq<Call>)
    requires p.Valid() && Monotone(Violations(Events(calls)))
    ensures After(p, calls).halt <==>
      Overflowed(p, Events(calls))
      || Alarmed(p, Violations(Events(calls)))
      || Unavailable(p, Outcomes(calls))
  {
    HistoryExplains(p, calls);
  }

  /** The flag is never cleared. */
  lemma {:induction false} HaltLatches(p: Policy, calls: seq<Call>, more: seq<Call>)
    requires After(p, calls).halt
    ensures After(p, calls + more).halt
  {
    if more == [] {
      assert calls + more == calls;
    } else {
      var n := |more| - 1;
      HaltLatches(p, calls, more[..n]);
      assert (calls + more)[..|calls| + n] == calls + more[..n];
    }
  }

  /** Whether a recorded violation raises the alarm, as the code decides it. */
  predicate Fires(s: Snapshot, p: Policy, ev: Ev) {
    |DoViolation(s, p, ev).times| % U32 >= p.alarmThreshold
  }

  lemma PrunedTimes(p: Policy, calls: seq<Call>)
    requires p.Valid() && Monotone(Violations(Events(calls)))
    ensures After(p, calls).times == LatestWindow(Violations(Events(calls)))
  {
    HistoryExplains(p, calls);
  }

  /**
   The code looks at the pruned list only, yet the alarm fires exactly when the
   number of violations of the whole log inside the window, as the `u32` it is
   cast to, reaches the threshold.
   */
  lemma AlarmSeesFullLog(p: Policy, calls: seq<Call>, ev: Ev)
    requires p.Valid()
    requires Monotone(Violations(Events(calls)) + [ev])
    ensures Fires(DoCount(After(p, calls), p), p, ev) <==>
      |LatestWindow(Violations(Events(calls)) + [ev])| % U32 >= p.alarmThreshold
  {
    var v := Violations(Events(calls));
    MonotonePrefix(v, v + [ev]);
    PrunedTimes(p, calls);
    FiresExactly(DoCount(After(p, calls), p), p, v, ev);
  }

  lemma FiresExactly(s: Snapshot, p: Policy, v: seq<Ev>, ev: Ev)
    requires s.times == LatestWindow(v) && Monotone(v + [ev])
    ensures Fires(s, p, ev) <==> |LatestWindow(v + [ev])| % U32 >= p.alarmThreshold
  {
    WindowStep(v, ev);
  }
}
