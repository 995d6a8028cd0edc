/**
 The audit alarm of src/audit.rs under concurrency: any number of threads are
 inside the recording calls at once, and one step is one access to the shared
 state. The counters and the latch are atomics, the violation list is behind a
 mutex, and setting the latch is an access of its own.
 */
module AuditThreads {
  import opened Common
  import opened Lists
  import opened Audit

  datatype Op = CountOp | ViolationOp | TrackOp(ok: bool) | HaltOp

  datatype State = State(
    count: nat, times: seq<int>, failures: nat, halt: bool,
    threads: seq<seq<Op>>,   // accesses each thread has still to make
    begun: seq<Call>,        // history: calls begun
    made: multiset<Op>,      // history: accesses made
    v: seq<Ev>,              // history: violations, in the order of the mutex
    outcomes: seq<bool>      // history: outcomes, in the order of the failure counter
  )

  function RecordOps(ev: Ev): seq<Op> {
    if !ev.sendOk then [] else if ev.violation then [CountOp, ViolationOp] else [CountOp]
  }

  /** The accesses of a call, in order, without the latch. */
  function Program(call: Call): seq<Op> {
    match call
    case Record(ev) => RecordOps(ev)
    case RecordPair(e1, e2) => RecordOps(e1) + RecordOps(e2)
    case RecordOrLog(ev) => RecordOps(ev) + [TrackOp(ev.sendOk)]
    case RecordOrLogPair(e1, e2) => RecordOps(e1) + RecordOps(e2) + [TrackOp(e1.sendOk && e2.sendOk)]
  }

  datatype Step =
    | Begin(t: nat, call: Call)
    | Access(t: nat, cutAt: int, pushAt: int)   // the clock readings matter inside the mutex only

  predicate Enabled(s: State, step: Step) {
    step.t < |s.threads| && (step.Begin? <==> s.threads[step.t] == [])
  }

  function Advance(s: State, t: nat, halts: bool): seq<seq<Op>>
    requires t < |s.threads| && s.threads[t] != []
  {
    s.threads[t := (if halts then [HaltOp] else []) + s.threads[t][1..]]
  }

  function Count(s: State, p: Policy, t: nat): State
    requires t < |s.threads| && s.threads[t] != []
  {
    var count := (s.count + 1) % U64;
    s.(count := count,
       threads := Advance(s, t, p.haltOnOverflow && p.maxEvents.Some? && count >= p.maxEvents.value))
  }

  function Violate(s: State, p: Policy, t: nat, ev: Ev): State
    requires t < |s.threads| && s.threads[t] != []
  {
    var times := Filter(s.times, AtLeast(ev.cutAt - WINDOW_SECS)) + [ev.pushAt];
    s.(times := times, v := s.v + [ev],
       threads := Advance(s, t, p.haltOnAlarm && |times| % U32 >= p.alarmThreshold))
  }

  function Track(s: State, p: Policy, t: nat, ok: bool): State
    requires t < |s.threads| && s.threads[t] != []
  {
    var failures := if ok then 0 else (s.failures + 1) % U32;
    s.(failures := failures, outcomes := s.outcomes + [ok],
       threads := Advance(s, t, !ok && failures >= p.alarmThreshold))
  }

  function Apply(s: State, p: Policy, step: Step): State
    requires Enabled(s, step)
  {
    match step
    case Begin(t, call) => s.(threads := s.threads[t := Program(call)], begun := s.begun + [call])
    case Access(t, cutAt, pushAt) =>
      var op := s.threads[t][0];
      var s' := match op
        case CountOp => Count(s, p, t)
        case ViolationOp => Violate(s, p, t, Ev(true, true, cutAt, pushAt))
        case TrackOp(ok) => Track(s, p, t, ok)
        case HaltOp => s.(halt := true, threads := Advance(s, t, false));
      s'.(made := s.made + multiset{op})
  }

  predicate CanRun(s: State, p: Policy, steps: seq<Step>)
    decreases |steps|
  {
    steps == [] || (Enabled(s, steps[0]) && CanRun(Apply(s, p, steps[0]), p, steps[1..]))
  }

  function Run(s: State, p: Policy, steps: seq<Step>): State
    requires CanRun(s, p, steps)
    decreases |steps|
  {
    if steps == [] then s else Run(Apply(s, p, steps[0]), p, steps[1..])
  }

  function Start(threads: nat): State {
    State(0, [], 0, false, seq(threads, _ => []), [], multiset{}, [], [])
  }

  ghost predicate AtRest(s: State) { forall t :: 0 <= t < |s.threads| ==> s.threads[t] == [] }

  // ---------------------------------------------------- nothing is skipped

  function Tally(ops: seq<Op>, op: Op): nat { multiset(ops)[op] }

  function Left(threads: seq<seq<Op>>, op: Op): nat {
    if threads == [] then 0 else Tally(threads[0], op) + Left(threads[1..], op)
  }

  /** How often the calls make an access. */
  function Due(calls: seq<Call>, op: Op): nat {
    if calls == [] then 0 else Due(calls[..|calls| - 1], op) + Tally(Program(calls[|calls| - 1]), op)
  }

  /** That is: once per event recorded, violation recorded, and outcome tracked. */
  lemma {:induction false} DueExactly(calls: seq<Call>, ok: bool)
    ensures Due(calls, CountOp) == Recorded(Events(calls))
    ensures Due(calls, ViolationOp) == |Violations(Events(calls))|
    ensures Due(calls, TrackOp(ok)) == multiset(Outcomes(calls))[ok]
  {
    if calls != [] {
      var n := |calls| - 1;
      DueExactly(calls[..n], ok);
      CallDue(Events(calls[..n]), calls[n], ok);
    }
  }

  lemma TallyConcat(a: seq<Op>, b: seq<Op>, op: Op)
    ensures Tally(a + b, op) == Tally(a, op) + Tally(b, op)
  {
    assert multiset(a + b) == multiset(a) + multiset(b);
  }

  lemma RecordTally(ev: Ev, ok: bool)
    ensures Tally(RecordOps(ev), CountOp) == if ev.sendOk then 1 else 0
    ensures Tally(RecordOps(ev), ViolationOp) == if ev.sendOk && ev.violation then 1 else 0
    ensures Tally(RecordOps(ev), TrackOp(ok)) == 0
  {
  }

  lemma EventDue(evs: seq<Ev>, ev: Ev)
    ensures Recorded(evs + [ev]) == Recorded(evs) + Tally(RecordOps(ev), CountOp)
    ensures |Violations(evs + [ev])| == |Violations(evs)| + Tally(RecordOps(ev), ViolationOp)
  {
    RecordTally(ev, true);
    ViolationsAppend(evs, ev);
  }

  lemma PairDue(evs: seq<Ev>, e1: Ev, e2: Ev)
    ensures Recorded(evs + [e1, e2]) == Recorded(evs) + Tally(RecordOps(e1) + RecordOps(e2), CountOp)
    ensures |Violations(evs + [e1, e2])| == |Violations(evs)| + Tally(RecordOps(e1) + RecordOps(e2), ViolationOp)
  {
    EventDue(evs, e1);
    EventDue(evs + [e1], e2);
    assert evs + [e1, e2] == evs + [e1] + [e2];
    TallyConcat(RecordOps(e1), RecordOps(e2), CountOp);
    TallyConcat(RecordOps(e1), RecordOps(e2), ViolationOp);
  }

  /** A tracked call makes one more access, with its outcome. */
  lemma TrackedTally(ops: seq<Op>, outcome: bool, ok: bool)
    requires Tally(ops, TrackOp(ok)) == 0
    ensures Tally(ops + [TrackOp(outcome)], TrackOp(ok)) == multiset([outcome])[ok]
    ensures Tally(ops + [TrackOp(outcome)], CountOp) == Tally(ops, CountOp)
    ensures Tally(ops + [TrackOp(outcome)], ViolationOp) == Tally(ops, ViolationOp)
  {
    TallyConcat(ops, [TrackOp(outcome)], TrackOp(ok));
    TallyConcat(ops, [TrackOp(outcome)], CountOp);
    TallyConcat(ops, [TrackOp(outcome)], ViolationOp);
  }

  lemma PairTracksNone(e1: Ev, e2: Ev, ok: bool)
    ensures Tally(RecordOps(e1) + RecordOps(e2), TrackOp(ok)) == 0
  {
    RecordTally(e1, ok);
    RecordTally(e2, ok);
    TallyConcat(RecordOps(e1), RecordOps(e2), TrackOp(ok));
  }

  lemma CallDue(evs: seq<Ev>, call: Call, ok: bool)
    ensures Recorded(evs + CallEvents(call)) == Recorded(evs) + Tally(Program(call), CountOp)
    ensures |Violations(evs + CallEvents(call))| == |Violations(evs)| + Tally(Program(call), ViolationOp)
    ensures multiset(CallOutcome(call))[ok] == Tally(Program(call), TrackOp(ok))
  {
    match call
    case Record(ev) =>
      EventDue(evs, ev);
      RecordTally(ev, ok);
    case RecordOrLog(ev) =>
      EventDue(evs, ev);
      RecordTally(ev, ok);
      TrackedTally(RecordOps(ev), ev.sendOk, ok);
    case RecordPair(e1, e2) =>
      PairDue(evs, e1, e2);
      PairTracksNone(e1, e2, ok);
    case RecordOrLogPair(e1, e2) =>
      PairDue(evs, e1, e2);
      PairTracksNone(e1, e2, ok);
      TrackedTally(RecordOps(e1) + RecordOps(e2), e1.sendOk && e2.sendOk, ok);
  }

  lemma {:induction false} LeftUpdate(threads: seq<seq<Op>>, t: nat, ops: seq<Op>, op: Op)
    requires t < |threads|
    ensures Left(threads[t := ops], op) + Tally(threads[t], op) == Left(threads, op) + Tally(ops, op)
  {
    var threads' := threads[t := ops];
    if t == 0 {
      assert threads'[1..] == threads[1..];
    } else {
      LeftUpdate(threads[1..], t - 1, ops, op);
      assert threads'[1..] == threads[1..][t - 1 := ops] && threads'[0] == threads[0];
    }
  }

  lemma {:induction false} NothingLeft(threads: seq<seq<Op>>, op: Op)
    requires forall t :: 0 <= t < |threads| ==> threads[t] == []
    ensures Left(threads, op) == 0
  {
    if threads != [] {
      NothingLeft(threads[1..], op);
    }
  }

  lemma TallyTail(ops: seq<Op>, op: Op)
    requires ops != []
    ensures Tally(ops, op) == Tally(ops[1..], op) + if ops[0] == op then 1 else 0
  {
    assert ops == [ops[0]] + ops[1..];
  }

  lemma TallyHalt(ops: seq<Op>, op: Op)
    requires op != HaltOp
    ensures Tally([HaltOp] + ops, op) == Tally(ops, op) && Tally([] + ops, op) == Tally(ops, op)
  {
    assert [] + ops == ops;
  }

  /** Accesses made and accesses to come are those of the calls. */
  predicate Balanced(s: State, op: Op) { s.made[op] + Left(s.threads, op) == Due(s.begun, op) }

  /** The logs are the accesses made. */
  ghost predicate Logged(s: State) {
    |s.v| == s.made[ViolationOp] && forall ok :: multiset(s.outcomes)[ok] == s.made[TrackOp(ok)]
  }

  ghost predicate Conserved(s: State) { Logged(s) && forall op: Op :: op != HaltOp ==> Balanced(s, op) }

  lemma BeginBalances(s: State, p: Policy, t: nat, call: Call, op: Op)
    requires Balanced(s, op) && Enabled(s, Begin(t, call))
    ensures Balanced(Apply(s, p, Begin(t, call)), op)
  {
    LeftUpdate(s.threads, t, Program(call), op);
    assert (s.begun + [call])[..|s.begun|] == s.begun;
  }

  lemma AdvanceBalances(s: State, t: nat, halts: bool, s': State, op: Op)
    requires op != HaltOp && Balanced(s, op) && t < |s.threads| && s.threads[t] != []
    requires s'.threads == Advance(s, t, halts) && s'.begun == s.begun
    requires s'.made == s.made + multiset{s.threads[t][0]}
    ensures Balanced(s', op)
  {
    var rest := s.threads[t][1..];
    LeftUpdate(s.threads, t, (if halts then [HaltOp] else []) + rest, op);
    TallyTail(s.threads[t], op);
    TallyHalt(rest, op);
  }

  /** Whether an access finds the latch due. */
  function Asks(s: State, p: Policy, step: Step): bool
    requires Enabled(s, step) && step.Access?
  {
    var s' := Apply(s, p, step);
    match s.threads[step.t][0]
    case CountOp => p.haltOnOverflow && p.maxEvents.Some? && s'.count >= p.maxEvents.value
    case ViolationOp => p.haltOnAlarm && |s'.times| % U32 >= p.alarmThreshold
    case TrackOp(ok) => !ok && s'.failures >= p.alarmThreshold
    case HaltOp => false
  }

  lemma AccessAdvances(s: State, p: Policy, step: Step)
    requires Enabled(s, step) && step.Access?
    ensures var s' := Apply(s, p, step);
      s'.threads == Advance(s, step.t, Asks(s, p, step)) && s'.begun == s.begun
      && s'.made == s.made + multiset{s.threads[step.t][0]}
      && s'.halt == (s.halt || s.threads[step.t][0] == HaltOp)
  {
  }

  lemma AccessBalances(s: State, p: Policy, step: Step, op: Op)
    requires op != HaltOp && Balanced(s, op) && Enabled(s, step) && step.Access?
    ensures Balanced(Apply(s, p, step), op)
  {
    AccessAdvances(s, p, step);
    AdvanceBalances(s, step.t, Asks(s, p, step), Apply(s, p, step), op);
  }

  lemma TrackLogs(s: State, s': State, ok: bool)
    requires Logged(s) && s'.v == s.v && s'.outcomes == s.outcomes + [ok] && s'.made == s.made + multiset{TrackOp(ok)}
    ensures Logged(s')
  {
    assert multiset(s'.outcomes) == multiset(s.outcomes) + multiset{ok};
  }

  lemma OtherLogs(s: State, s': State, op: Op)
    requires Logged(s) && !op.TrackOp? && s'.outcomes == s.outcomes && s'.made == s.made + multiset{op}
    requires |s'.v| == |s.v| + if op == ViolationOp then 1 else 0
    ensures Logged(s')
  {
  }

  lemma StepLogs(s: State, p: Policy, step: Step)
    requires Logged(s) && Enabled(s, step)
    ensures Logged(Apply(s, p, step))
  {
    if step.Access? {
      var op := s.threads[step.t][0];
      if op.TrackOp? {
        TrackLogs(s, Apply(s, p, step), op.ok);
      } else {
        OtherLogs(s, Apply(s, p, step), op);
      }
    }
  }

  lemma StepConserves(s: State, p: Policy, step: Step)
    requires Conserved(s) && Enabled(s, step)
    ensures Conserved(Apply(s, p, step))
  {
    StepLogs(s, p, step);
    forall op: Op | op != HaltOp ensures Balanced(Apply(s, p, step), op) {
      if step.Begin? {
        BeginBalances(s, p, step.t, step.call, op);
      } else {
        AccessBalances(s, p, step, op);
      }
    }
  }

  // -------------------------------------------------------------- the latch

  predicate Over(p: Policy, n: nat) {
    p.haltOnOverflow && p.maxEvents.Some? && n >= 1 && n >= p.maxEvents.value
  }

  ghost predicate Pending(s: State) {
    exists t :: 0 <= t < |s.threads| && s.threads[t] != [] && s.threads[t][0] == HaltOp
  }

  /** The latch is set, or a thread is about to set it. */
  ghost predicate Halting(s: State) { s.halt || Pending(s) }

  /** A thread sets the latch right after the access that found it necessary. */
  ghost predicate HaltFirst(s: State) {
    forall t, i :: 0 <= t < |s.threads| && 1 <= i < |s.threads[t]| ==> s.threads[t][i] != HaltOp
  }

  ghost predicate Explained(s: State, p: Policy) {
    s.count == s.made[CountOp] % U64
    && s.failures == TrailingFailures(s.outcomes) % U32
    && s.times == LatestWindow(s.v)
    && (Halting(s) <==> Over(p, s.made[CountOp]) || Alarmed(p, s.v) || Unavailable(p, s.outcomes))
  }

  ghost predicate Inv(s: State, p: Policy) { HaltFirst(s) && Conserved(s) && Explained(s, p) }

  /** After an access that is not the latch, a halt is on its way exactly if it was or the access asks for it. */
  lemma AdvanceHalts(s: State, t: nat, halts: bool, s': State)
    requires HaltFirst(s) && t < |s.threads| && s.threads[t] != [] && s.threads[t][0] != HaltOp
    requires s'.threads == Advance(s, t, halts) && s'.halt == s.halt
    ensures HaltFirst(s') && (Halting(s') <==> Halting(s) || halts)
  {
    assert forall u :: 0 <= u < |s.threads| && u != t ==> s'.threads[u] == s.threads[u];
    if Pending(s) {
      var u :| 0 <= u < |s.threads| && s.threads[u] != [] && s.threads[u][0] == HaltOp;
      assert s'.threads[u][0] == HaltOp;
    }
    if halts {
      assert s'.threads[t][0] == HaltOp;
    }
    if s'.threads[t] != [] && !halts {
      assert s'.threads[t][0] == s.threads[t][1];
    }
  }

  lemma CountCause(p: Policy, n: nat, halting: bool)
    requires p.Valid() && (Over(p, n) ==> halting)
    ensures var c := (n % U64 + 1) % U64;
      c == (n + 1) % U64
      && (halting || (p.haltOnOverflow && p.maxEvents.Some? && c >= p.maxEvents.value)
          <==> halting || Over(p, n + 1))
  {
    ModNext(n);
  }

  lemma ViolationCause(p: Policy, v: seq<Ev>, ev: Ev, halting: bool)
    requires p.Valid() && Monotone(v + [ev]) && (Alarmed(p, v) ==> halting)
    ensures var times := Filter(LatestWindow(v), AtLeast(ev.cutAt - WINDOW_SECS)) + [ev.pushAt];
      times == LatestWindow(v + [ev])
      && (halting || (p.haltOnAlarm && |times| % U32 >= p.alarmThreshold) <==> halting || Alarmed(p, v + [ev]))
      && (Alarmed(p, v) ==> Alarmed(p, v + [ev]))
  {
    ViolationKeeps(Snapshot(LatestWindow(v), halting, 0, 0), p, v, ev);
    AlarmedStep(p, v, ev);
  }

  lemma TrackCause(p: Policy, outcomes: seq<bool>, ok: bool, halting: bool)
    requires p.Valid() && (Unavailable(p, outcomes) ==> halting)
    ensures var n := if ok then 0 else (TrailingFailures(outcomes) % U32 + 1) % U32;
      n == TrailingFailures(outcomes + [ok]) % U32
      && (halting || (!ok && n >= p.alarmThreshold) <==> halting || Unavailable(p, outcomes + [ok]))
      && (Unavailable(p, outcomes) ==> Unavailable(p, outcomes + [ok]))
  {
    assert (outcomes + [ok])[..|outcomes|] == outcomes;
    UnavailableStep(p, outcomes, ok);
    if !Unavailable(p, outcomes) {
      TrailWithoutHalt(p, outcomes);
    }
    ModNext32(TrailingFailures(outcomes));
  }

  lemma CountExplains(s: State, p: Policy, step: Step)
    requires p.Valid() && HaltFirst(s) && Explained(s, p) && Enabled(s, step) && step.Access?
    requires s.threads[step.t][0] == CountOp
    ensures HaltFirst(Apply(s, p, step)) && Explained(Apply(s, p, step), p)
  {
    AccessAdvances(s, p, step);
    AdvanceHalts(s, step.t, Asks(s, p, step), Apply(s, p, step));
    CountSettles(s, Apply(s, p, step), p);
  }

  lemma CountSettles(s: State, s': State, p: Policy)
    requires p.Valid() && Explained(s, p)
    requires s'.failures == s.failures && s'.outcomes == s.outcomes && s'.times == s.times && s'.v == s.v
    requires s'.made[CountOp] == s.made[CountOp] + 1 && s'.count == (s.count + 1) % U64
    requires Halting(s') <==>
      Halting(s) || (p.haltOnOverflow && p.maxEvents.Some? && s'.count >= p.maxEvents.value)
    ensures Explained(s', p)
  {
    CountCause(p, s.made[CountOp], Halting(s));
  }

  lemma ViolationExplains(s: State, p: Policy, step: Step)
    requires p.Valid() && HaltFirst(s) && Explained(s, p) && Enabled(s, step) && step.Access?
    requires s.threads[step.t][0] == ViolationOp && Monotone(Apply(s, p, step).v)
    ensures HaltFirst(Apply(s, p, step)) && Explained(Apply(s, p, step), p)
  {
    AccessAdvances(s, p, step);
    AdvanceHalts(s, step.t, Asks(s, p, step), Apply(s, p, step));
    ViolationSettles(s, Apply(s, p, step), p, Ev(true, true, step.cutAt, step.pushAt));
  }

  lemma ViolationSettles(s: State, s': State, p: Policy, ev: Ev)
    requires p.Valid() && Explained(s, p) && Monotone(s'.v)
    requires s'.count == s.count && s'.made[CountOp] == s.made[CountOp]
    requires s'.failures == s.failures && s'.outcomes == s.outcomes && s'.v == s.v + [ev]
    requires s'.times == Filter(s.times, AtLeast(ev.cutAt - WINDOW_SECS)) + [ev.pushAt]
    requires Halting(s') <==> Halting(s) || (p.haltOnAlarm && |s'.times| % U32 >= p.alarmThreshold)
    ensures Explained(s', p)
  {
    ViolationCause(p, s.v, ev, Halting(s));
  }

  lemma TrackExplains(s: State, p: Policy, step: Step)
    requires p.Valid() && HaltFirst(s) && Explained(s, p) && Enabled(s, step) && step.Access?
    requires s.threads[step.t][0].TrackOp?
    ensures HaltFirst(Apply(s, p, step)) && Explained(Apply(s, p, step), p)
  {
    AccessAdvances(s, p, step);
    AdvanceHalts(s, step.t, Asks(s, p, step), Apply(s, p, step));
    TrackSettles(s, Apply(s, p, step), p, s.threads[step.t][0].ok);
  }

  lemma TrackSettles(s: State, s': State, p: Policy, ok: bool)
    requires p.Valid() && Explained(s, p)
    requires s'.count == s.count && s'.made[CountOp] == s.made[CountOp] && s'.times == s.times && s'.v == s.v
    requires s'.outcomes == s.outcomes + [ok] && s'.failures == if ok then 0 else (s.failures + 1) % U32
    requires Halting(s') <==> Halting(s) || (!ok && s'.failures >= p.alarmThreshold)
    ensures Explained(s', p)
  {
    TrackCause(p, s.outcomes, ok, Halting(s));
  }

  lemma HaltExplains(s: State, p: Policy, step: Step)
    requires HaltFirst(s) && Explained(s, p) && Enabled(s, step) && step.Access?
    requires s.threads[step.t][0] == HaltOp
    ensures HaltFirst(Apply(s, p, step)) && Explained(Apply(s, p, step), p)
  {
    assert Pending(s);
  }

  lemma ProgramSetsNoLatch(call: Call)
    ensures forall i :: 0 <= i < |Program(call)| ==> Program(call)[i] != HaltOp
  {
  }

  lemma BeginExplains(s: State, p: Policy, t: nat, call: Call)
    requires HaltFirst(s) && Explained(s, p) && Enabled(s, Begin(t, call))
    ensures var s' := Apply(s, p, Begin(t, call)); HaltFirst(s') && Explained(s', p)
  {
    var s' := Apply(s, p, Begin(t, call));
    ProgramSetsNoLatch(call);
    assert forall u :: 0 <= u < |s.threads| && u != t ==> s'.threads[u] == s.threads[u];
    if Pending(s) {
      var u :| 0 <= u < |s.threads| && s.threads[u] != [] && s.threads[u][0] == HaltOp;
      assert s'.threads[u][0] == HaltOp;
    }
  }

  lemma StepExplains(s: State, p: Policy, step: Step)
    requires p.Valid() && HaltFirst(s) && Explained(s, p) && Enabled(s, step)
    requires Monotone(Apply(s, p, step).v)
    ensures HaltFirst(Apply(s, p, step)) && Explained(Apply(s, p, step), p)
  {
    match step
    case Begin(t, call) => BeginExplains(s, p, t, call);
    case Access(t, _, _) =>
      match s.threads[t][0]
      case CountOp => CountExplains(s, p, step);
      case ViolationOp => ViolationExplains(s, p, step);
      case TrackOp(_) => TrackExplains(s, p, step);
      case HaltOp => HaltExplains(s, p, step);
  }

  lemma {:induction false} LogGrows(s: State, p: Policy, steps: seq<Step>)
    requires CanRun(s, p, steps)
    ensures s.v <= Run(s, p, steps).v
    decreases |steps|
  {
    if steps != [] {
      LogGrows(Apply(s, p, steps[0]), p, steps[1..]);
    }
  }

  lemma {:induction false} RunKeepsInv(s: State, p: Policy, steps: seq<Step>)
    requires p.Valid() && Inv(s, p) && CanRun(s, p, steps) && Monotone(Run(s, p, steps).v)
    ensures Inv(Run(s, p, steps), p)
    decreases |steps|
  {
    if steps != [] {
      var s' := Apply(s, p, steps[0]);
      LogGrows(s', p, steps[1..]);
      MonotonePrefix(s'.v, Run(s, p, steps).v);
      StepConserves(s, p, steps[0]);
      StepExplains(s, p, steps[0]);
      RunKeepsInv(s', p, steps[1..]);
    }
  }

  lemma StartInv(threads: nat, p: Policy)
    ensures Inv(Start(threads), p)
  {
    forall op: Op ensures Balanced(Start(threads), op) {
      NothingLeft(Start(threads).threads, op);
    }
  }

  /**
   In every interleaving of any number of threads, at rest the latch is set
   exactly when the calls recorded reached the event limit under the halt
   policy, or some violation found threshold many in its window, in the order
   of the mutex, or threshold many calls in a row failed, in the order of the
   failure counter. Every violation and outcome of the calls is in those orders,
   each once. While calls are under way, one of these causes a halt no later
   than the next access of the thread that found it.
   */
  lemma HaltAtRest(threads: nat, p: Policy, steps: seq<Step>)
    requires p.Valid() && CanRun(Start(threads), p, steps)
    requires Monotone(Run(Start(threads), p, steps).v)
    ensures var s := Run(Start(threads), p, steps);
      var causes := Over(p, s.made[CountOp]) || Alarmed(p, s.v) || Unavailable(p, s.outcomes);
      (Halting(s) <==> causes)
      && (AtRest(s) ==>
            (s.halt <==> causes)
            && s.made[CountOp] == Recorded(Events(s.begun))
            && |s.v| == |Violations(Events(s.begun))|
            && multiset(s.outcomes) == multiset(Outcomes(s.begun)))
  {
    StartInv(threads, p);
    RunKeepsInv(Start(threads), p, steps);
    RestIsSettled(Run(Start(threads), p, steps), p);
  }

  lemma RestIsSettled(s: State, p: Policy)
    requires Inv(s, p)
    ensures AtRest(s) ==>
      !Pending(s)
      && s.made[CountOp] == Recorded(Events(s.begun))
      && |s.v| == |Violations(Events(s.begun))|
      && multiset(s.outcomes) == multiset(Outcomes(s.begun))
  {
    if AtRest(s) {
      forall op: Op | op != HaltOp ensures s.made[op] == Due(s.begun, op) {
        assert Balanced(s, op);
        NothingLeft(s.threads, op);
      }
      DueExactly(s.begun, true);
      forall ok ensures multiset(s.outcomes)[ok] == multiset(Outcomes(s.begun))[ok] {
        DueExactly(s.begun, ok);
      }
    }
  }
}
