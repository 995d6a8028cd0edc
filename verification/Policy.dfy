/**
 Rebuilding the issuance policy (src/policy.rs) while rules are committed and
 other rebuilds run (src/state.rs, src/gossip/gossip_loop.rs), with the
 periodic persist that commits peers' rules on its own. A row carries the
 outcome of decoding its JSON; whether the engine accepts a rule set is an
 input.
 */
module Policy {
  import opened Common
  import opened Lists

  type Rule = string
  type Tid = nat

  datatype Row = Row(id: string, enabled: int, parsed: Option<Rule>)

  datatype RebuildError = DbLoad | CorruptRules(skipped: nat, ids: seq<string>) | Engine

  // --------------------------------------------------------- parsing rows

  function IsEnabled(row: Row): bool { row.enabled != 0 }

  function ParsedRule(row: Row): Option<Rule> { row.parsed }

  function CorruptId(row: Row): Option<string> { if row.parsed.None? then Some(row.id) else None }

  function EnabledRows(rows: seq<Row>): seq<Row> { Filter(rows, IsEnabled) }

  function Rules(rows: seq<Row>): seq<Rule> { FilterMap(EnabledRows(rows), ParsedRule) }

  function SkippedIds(rows: seq<Row>): seq<string> { FilterMap(EnabledRows(rows), CorruptId) }

  method ParseDbRules(rows: seq<Row>) returns (rules: seq<Rule>, skippedIds: seq<string>)
    ensures rules == Rules(rows) && skippedIds == SkippedIds(rows)
  {
    rules, skippedIds := [], [];
    for i := 0 to |rows|
      invariant rules == Rules(rows[..i]) && skippedIds == SkippedIds(rows[..i])
    {
      var row := rows[i];
      assert rows[..i + 1] == rows[..i] + [row];
      FilterAppend(rows[..i], row, IsEnabled);
      if row.enabled != 0 {
        FilterMapAppend(EnabledRows(rows[..i]), row, ParsedRule);
        FilterMapAppend(EnabledRows(rows[..i]), row, CorruptId);
        match row.parsed {
          case Some(rule) => rules := rules + [rule];
          case None => skippedIds := skippedIds + [row.id];
        }
      } else {
        assert EnabledRows(rows[..i + 1]) == EnabledRows(rows[..i]);
      }
    }
    assert rows[..|rows|] == rows;
  }

  /** `ix` lists the rows that are not disabled and whose JSON decodes, or does not, each once in row order. */
  ghost predicate Indexes(ix: seq<nat>, rows: seq<Row>, decoded: bool) {
    (forall k, l :: 0 <= k < l < |ix| ==> ix[k] < ix[l])
    && (forall i: nat :: i in ix <==> i < |rows| && rows[i].enabled != 0 && rows[i].parsed.Some? == decoded)
  }

  /** The rules are the decoded values of exactly the rows that are not disabled, in row order. */
  lemma RulesExactly(rows: seq<Row>)
    ensures exists ix: seq<nat> ::
      Indexes(ix, rows, true) && |Rules(rows)| == |ix|
      && forall k :: 0 <= k < |ix| ==> ix[k] < |rows| && rows[ix[k]].parsed == Some(Rules(rows)[k])
  {
    var f := (row: Row) => if row.enabled != 0 then row.parsed else None;
    FilterThenMap(rows, IsEnabled, ParsedRule, f);
    FilterMapPicks(rows, f, |rows|);
    assert rows[..|rows|] == rows;
    assert Indexes(Picked(rows, f, |rows|), rows, true);
  }

  /** The skipped ids are those of exactly the rows that are neither disabled nor decode, in row order. */
  lemma SkippedExactly(rows: seq<Row>)
    ensures exists ix: seq<nat> ::
      Indexes(ix, rows, false) && |SkippedIds(rows)| == |ix|
      && forall k :: 0 <= k < |ix| ==> ix[k] < |rows| && rows[ix[k]].id == SkippedIds(rows)[k]
  {
    var f := (row: Row) => if row.enabled != 0 && row.parsed.None? then Some(row.id) else None;
    FilterThenMap(rows, IsEnabled, CorruptId, f);
    FilterMapPicks(rows, f, |rows|);
    assert rows[..|rows|] == rows;
    assert Indexes(Picked(rows, f, |rows|), rows, false);
  }

  /** Disabled rows count for nothing, whether they decode or not. */
  lemma DisabledIrrelevant(rows: seq<Row>)
    ensures var kept := Filter(rows, (row: Row) => row.enabled != 0);
      Rules(kept) == Rules(rows) && SkippedIds(kept) == SkippedIds(rows)
  {
    FilterFilter(rows, (row: Row) => row.enabled != 0, IsEnabled);
  }

  /** With nothing skipped, the rules are those of all enabled rows, one each, in row order. */
  lemma {:induction false} NothingSkipped(rows: seq<Row>)
    ensures |SkippedIds(rows)| + |Rules(rows)| == |EnabledRows(rows)|
    ensures SkippedIds(rows) == [] ==>
      forall i :: 0 <= i < |EnabledRows(rows)| ==> EnabledRows(rows)[i].parsed == Some(Rules(rows)[i])
  {
    Partition(EnabledRows(rows));
  }

  lemma {:induction false} Partition(rows: seq<Row>)
    ensures |FilterMap(rows, CorruptId)| + |FilterMap(rows, ParsedRule)| == |rows|
    ensures FilterMap(rows, CorruptId) == [] ==>
      forall i :: 0 <= i < |rows| ==> rows[i].parsed == Some(FilterMap(rows, ParsedRule)[i])
  {
    if rows != [] {
      Partition(rows[1..]);
    }
  }

  // ------------------------------------------------ one rebuild, under lock

  function RebuildOutcome(enforce: bool, rows: Option<seq<Row>>, buildOk: bool): Result<seq<Rule>, RebuildError> {
    if rows.None? then Err(DbLoad)
    else if SkippedIds(rows.value) != [] && enforce
    then Err(CorruptRules(|SkippedIds(rows.value)|, SkippedIds(rows.value)))
    else if !buildOk then Err(Engine)
    else Ok(Rules(rows.value))
  }

  /** Some row that is not disabled does not decode. */
  ghost predicate HasCorrupt(rows: seq<Row>) {
    exists i :: 0 <= i < |rows| && rows[i].enabled != 0 && rows[i].parsed.None?
  }

  lemma SkipsExactly(rows: seq<Row>)
    ensures SkippedIds(rows) != [] <==> HasCorrupt(rows)
  {
    SkippedExactly(rows);
    var ix: seq<nat> :| Indexes(ix, rows, false) && |SkippedIds(rows)| == |ix|;
    if HasCorrupt(rows) {
      var i :| 0 <= i < |rows| && rows[i].enabled != 0 && rows[i].parsed.None?;
      assert i in ix;
    }
    if ix != [] {
      assert ix[0] in ix;
    }
  }

  /** When a rebuild succeeds, and what it reports in which order when it does not. */
  lemma RebuildExactly(enforce: bool, rows: Option<seq<Row>>, buildOk: bool)
    ensures var r := RebuildOutcome(enforce, rows, buildOk);
      (r.Ok? <==> rows.Some? && !(enforce && HasCorrupt(rows.value)) && buildOk)
      && (r == Err(DbLoad) <==> rows.None?)
      && ((r.Err? && r.error.CorruptRules?) <==> rows.Some? && enforce && HasCorrupt(rows.value))
      && (r.Err? && r.error.CorruptRules? ==>
            r.error.ids == SkippedIds(rows.value) && r.error.skipped == |r.error.ids|)
      && (r.Ok? ==> r.value == Rules(rows.value))
  {
    if rows.Some? {
      SkipsExactly(rows.value);
    }
  }

  class PolicyState {
    const enforce: bool
    var engine: seq<Rule>
    var rebuildNeeded: bool

    constructor (enforce: bool, engine: seq<Rule>)
      ensures this.enforce == enforce && this.engine == engine && !rebuildNeeded
    {
      this.enforce, this.engine, rebuildNeeded := enforce, engine, false;
    }

    /** All or nothing; in enforce mode a success installs every enabled rule in order. */
    method RebuildIssuancePolicy(rows: Option<seq<Row>>, buildOk: bool) returns (r: Result<(), RebuildError>)
      modifies this`engine
      ensures r.Err? ==> engine == old(engine) && RebuildOutcome(enforce, rows, buildOk) == Err(r.error)
      ensures r.Ok? ==> RebuildOutcome(enforce, rows, buildOk) == Ok(engine)
      ensures r.Ok? && enforce ==>
        |engine| == |EnabledRows(rows.value)|
        && forall i :: 0 <= i < |engine| ==> EnabledRows(rows.value)[i].parsed == Some(engine[i])
    {
      if rows.None? {
        return Err(DbLoad);
      }
      var rules, skipped := ParseDbRules(rows.value);
      NothingSkipped(rows.value);
      if |skipped| > 0 && enforce {
        return Err(CorruptRules(|skipped|, skipped));
      }
      if !buildOk {
        return Err(Engine);
      }
      engine := rules;
      return Ok(());
    }

    method RebuildOrDefer(rows: Option<seq<Row>>, buildOk: bool) returns (ok: bool)
      modifies this`engine, this`rebuildNeeded
      ensures ok <==> RebuildOutcome(enforce, rows, buildOk).Ok?
      ensures ok ==> Ok(engine) == RebuildOutcome(enforce, rows, buildOk)
                     && rebuildNeeded == old(rebuildNeeded)
      ensures !ok ==> engine == old(engine) && rebuildNeeded
    {
      var r := RebuildIssuancePolicy(rows, buildOk);
      ok := r.Ok?;
      if !ok {
        rebuildNeeded := true;
      }
    }
  }

  // --------------------------------------------------- all interleavings

  /** Where a task is in commit, lock, read, install or defer. */
  datatype Phase = Requested | Holding | HasRead(version: nat) | Failed

  /** `owes` is the table the rebuild was asked for; an admin request may be dropped while it waits. */
  datatype Task = Task(phase: Phase, owes: nat, admin: bool)

  datatype State = State(
    enforce: bool,
    snapshots: seq<seq<Row>>,     // committed rule tables, oldest first
    engine: seq<Rule>,
    installed: nat,               // history: the snapshot the engine was built from
    needed: bool,
    lock: Option<Tid>,
    tasks: map<Tid, Task>,
    requested: nat,               // history: the newest table committed along with a rebuild
    carried: nat                  // history: the newest table that a finished rebuild was asked for or read
  ) {
    function Latest(): int { |snapshots| - 1 }
  }

  datatype Step =
    | CommitRules(t: Tid, rows: seq<Row>, admin: bool)  // admin change or gossip merge, then a rebuild
    | Persist(rows: seq<Row>)               // the periodic gossip persist: no rebuild, no flag
    | Retry(t: Tid)                         // gossip round: take the flag, then a rebuild
    | Acquire(t: Tid)
    | Load(t: Tid, ok: bool)
    | Install(t: Tid, buildOk: bool)
    | Defer(t: Tid)                         // raise the flag after a failure
    | Drop(t: Tid)                          // the client of an admin request went away

  predicate InPhase(s: State, t: Tid, p: Phase) { t in s.tasks && s.tasks[t].phase == p }

  predicate Enabled(s: State, step: Step) {
    match step
    case CommitRules(t, _, _) => t !in s.tasks
    case Persist(_) => true
    case Retry(t) => t !in s.tasks && s.needed
    case Acquire(t) => InPhase(s, t, Requested) && s.lock.None?
    case Load(t, _) => InPhase(s, t, Holding)
    case Install(t, _) =>
      t in s.tasks && s.tasks[t].phase.HasRead? && s.tasks[t].phase.version < |s.snapshots|
    case Defer(t) => InPhase(s, t, Failed)
    case Drop(t) => (InPhase(s, t, Requested) || InPhase(s, t, Holding)) && s.tasks[t].admin
  }

  function Max(a: nat, b: nat): nat { if a >= b then a else b }

  function Move(s: State, t: Tid, p: Phase): map<Tid, Task>
    requires t in s.tasks
  {
    s.tasks[t := s.tasks[t].(phase := p)]
  }

  function Apply(s: State, step: Step): State
    requires Enabled(s, step)
  {
    match step
    case CommitRules(t, rows, admin) =>
      s.(snapshots := s.snapshots + [rows], requested := |s.snapshots|,
         tasks := s.tasks[t := Task(Requested, |s.snapshots|, admin)])
    case Persist(rows) => s.(snapshots := s.snapshots + [rows])
    case Retry(t) => s.(needed := false, tasks := s.tasks[t := Task(Requested, s.carried, false)])
    case Acquire(t) => s.(lock := Some(t), tasks := Move(s, t, Holding))
    case Load(t, ok) =>
      if ok && s.snapshots != [] then s.(tasks := Move(s, t, HasRead(|s.snapshots| - 1)))
      else s.(lock := None, tasks := Move(s, t, Failed))
    case Install(t, buildOk) =>
      var v := s.tasks[t].phase.version;
      (match RebuildOutcome(s.enforce, Some(s.snapshots[v]), buildOk)
       case Ok(rules) =>
         s.(engine := rules, installed := v, lock := None, tasks := s.tasks - {t}, carried := Max(s.carried, v))
       case Err(_) => s.(lock := None, tasks := Move(s, t, Failed)))
    case Defer(t) =>
      s.(needed := true, tasks := s.tasks - {t}, carried := Max(s.carried, s.tasks[t].owes))
    case Drop(t) =>
      s.(lock := if s.tasks[t].phase.Holding? then None else s.lock, tasks := s.tasks - {t})
  }

  predicate CanRun(s: State, steps: seq<Step>)
    decreases |steps|
  {
    steps == [] || (Enabled(s, steps[0]) && CanRun(Apply(s, steps[0]), steps[1..]))
  }

  function Run(s: State, steps: seq<Step>): State
    requires CanRun(s, steps)
    decreases |steps|
  {
    if steps == [] then s else Run(Apply(s, steps[0]), steps[1..])
  }

  // ------------------------------------------------------------ invariant

  predicate InSection(p: Phase) { p.Holding? || p.HasRead? }

  /** The lock holder alone is in the section; what it has read is no older than asked for or installed. */
  ghost predicate LockInv(s: State) {
    s.installed < |s.snapshots|
    && (forall t :: t in s.tasks && InSection(s.tasks[t].phase) ==> s.lock == Some(t))
    && (forall t :: t in s.tasks ==> s.tasks[t].owes < |s.snapshots|)
    && (forall t :: t in s.tasks && s.tasks[t].phase.HasRead? ==>
          s.installed <= s.tasks[t].phase.version < |s.snapshots|
          && s.tasks[t].owes <= s.tasks[t].phase.version)
  }

  ghost predicate EngineInv(s: State) {
    s.installed < |s.snapshots|
    && s.engine == Rules(s.snapshots[s.installed])
    && (s.enforce && s.installed > 0 ==> SkippedIds(s.snapshots[s.installed]) == [])
  }

  /** A retry that will still install what is owed, or raise the flag. */
  predicate Repays(s: State, t: Tid) {
    t in s.tasks && !s.tasks[t].admin && s.tasks[t].owes >= s.carried
    && (s.tasks[t].phase.HasRead? ==> s.tasks[t].phase.version >= s.carried)
  }

  /** What a finished rebuild was asked for is installed, flagged, or being retried. */
  ghost predicate CarriedInv(s: State) {
    s.installed <= s.carried < |s.snapshots|
    && (s.installed == s.carried || s.needed || exists t :: Repays(s, t))
  }

  ghost predicate Inv(s: State) { LockInv(s) && EngineInv(s) && CarriedInv(s) }

  lemma LockStep(s: State, step: Step)
    requires LockInv(s) && s.carried < |s.snapshots| && Enabled(s, step)
    ensures LockInv(Apply(s, step))
    ensures s.installed <= Apply(s, step).installed
  {
    if step.Load? || step.Install? {
      SectionStep(s, step);
    }
  }

  lemma SectionStep(s: State, step: Step)
    requires LockInv(s) && Enabled(s, step) && (step.Load? || step.Install?)
    ensures LockInv(Apply(s, step))
    ensures s.installed <= Apply(s, step).installed
  {
    assert s.lock == Some(step.t);
    assert forall t :: t in s.tasks && t != step.t ==> !InSection(s.tasks[t].phase);
  }

  lemma EngineStep(s: State, step: Step)
    requires EngineInv(s) && Enabled(s, step)
    ensures EngineInv(Apply(s, step))
  {
  }

  lemma CarriedStep(s: State, step: Step)
    requires LockInv(s) && CarriedInv(s) && Enabled(s, step)
    ensures CarriedInv(Apply(s, step))
  {
    var s' := Apply(s, step);
    if step.Retry? {
      assert Repays(s', step.t);
    } else if !(s.installed == s.carried || s.needed) {
      var t :| Repays(s, t);
      if step.Persist? || step.t != t {
        assert s'.carried == s.carried ==> Repays(s', t);
      } else if !step.Defer? && s'.installed != s'.carried {
        assert Repays(s', t);
      }
    }
  }

  lemma StepKeepsInv(s: State, step: Step)
    requires Inv(s) && Enabled(s, step)
    ensures Inv(Apply(s, step))
    ensures s.installed <= Apply(s, step).installed
    ensures s.snapshots <= Apply(s, step).snapshots && Apply(s, step).enforce == s.enforce
  {
    LockStep(s, step);
    EngineStep(s, step);
    CarriedStep(s, step);
  }

  lemma {:induction false} RunKeepsInv(s: State, steps: seq<Step>)
    requires Inv(s) && CanRun(s, steps)
    ensures Inv(Run(s, steps))
    ensures s.installed <= Run(s, steps).installed
    ensures s.snapshots <= Run(s, steps).snapshots && Run(s, steps).enforce == s.enforce
    decreases |steps|
  {
    if steps != [] {
      StepKeepsInv(s, steps[0]);
      RunKeepsInv(Apply(s, steps[0]), steps[1..]);
    }
  }

  /** Without drops, every table committed with a rebuild is carried through or still owed. */
  ghost predicate RequestedInv(s: State) {
    s.requested < |s.snapshots|
    && (s.requested <= s.carried || exists t :: t in s.tasks && s.tasks[t].owes >= s.requested)
  }

  lemma RequestedStep(s: State, step: Step)
    requires LockInv(s) && RequestedInv(s) && Enabled(s, step) && !step.Drop?
    ensures RequestedInv(Apply(s, step))
  {
    var s' := Apply(s, step);
    if step.CommitRules? {
      assert s'.tasks[step.t].owes >= s'.requested;
    } else if s.requested > s.carried {
      var t :| t in s.tasks && s.tasks[t].owes >= s.requested;
      if t in s'.tasks {
        assert s'.tasks[t].owes >= s'.requested;
      }
    }
  }

  lemma {:induction false} RequestsKept(s: State, steps: seq<Step>)
    requires Inv(s) && RequestedInv(s) && CanRun(s, steps)
    requires forall k :: 0 <= k < |steps| ==> !steps[k].Drop?
    ensures RequestedInv(Run(s, steps))
    decreases |steps|
  {
    if steps != [] {
      StepKeepsInv(s, steps[0]);
      RequestedStep(s, steps[0]);
      RequestsKept(Apply(s, steps[0]), steps[1..]);
    }
  }

  // ----------------------------------------------------------------- laws

  /** The state at start-up: one table, and the engine built from it, corrupt rows skipped in either mode. */
  function Start(enforce: bool, rows: seq<Row>): State {
    State(enforce, [rows], Rules(rows), 0, false, None, map[], 0, 0)
  }

  /**
   Over all interleavings of commits and rebuilds, the engine always equals
   the rules of one committed table, and from any point of a run to any later
   point it never moves to an older one.
   */
  lemma EngineNeverGoesBack(enforce: bool, rows: seq<Row>, first: seq<Step>, more: seq<Step>)
    requires CanRun(Start(enforce, rows), first)
    requires CanRun(Run(Start(enforce, rows), first), more)
    ensures var a := Run(Start(enforce, rows), first);
      var b := Run(a, more);
      a.installed <= b.installed < |b.snapshots|
      && b.engine == Rules(b.snapshots[b.installed])
  {
    RunKeepsInv(Start(enforce, rows), first);
    RunKeepsInv(Run(Start(enforce, rows), first), more);
  }

  /** The engine holds every enabled rule of the table it was built from, in order. */
  ghost predicate Complete(s: State) {
    s.installed < |s.snapshots|
    && var rows := EnabledRows(s.snapshots[s.installed]);
       |s.engine| == |rows| && forall i :: 0 <= i < |rows| ==> rows[i].parsed == Some(s.engine[i])
  }

  /**
   In every state of every run the engine is complete exactly when its table
   has no corrupt enabled row; in enforce mode only the start-up table can.
   */
  lemma CompleteExactly(enforce: bool, rows: seq<Row>, steps: seq<Step>)
    requires CanRun(Start(enforce, rows), steps)
    ensures var s := Run(Start(enforce, rows), steps);
      s.installed < |s.snapshots|
      && (Complete(s) <==> SkippedIds(s.snapshots[s.installed]) == [])
      && (enforce && !Complete(s) ==> s.installed == 0 && SkippedIds(rows) != [])
  {
    RunKeepsInv(Start(enforce, rows), steps);
    var s := Run(Start(enforce, rows), steps);
    NothingSkipped(s.snapshots[s.installed]);
  }

  /** Enforce mode keeps the engine complete in every run exactly when the start-up table is clean. */
  lemma EnforceCompleteExactly(rows: seq<Row>)
    ensures (forall steps :: CanRun(Start(true, rows), steps) ==> Complete(Run(Start(true, rows), steps)))
      <==> SkippedIds(rows) == []
  {
    forall steps | CanRun(Start(true, rows), steps)
      ensures !Complete(Run(Start(true, rows), steps)) ==> SkippedIds(rows) != []
    {
      CompleteExactly(true, rows, steps);
    }
    if SkippedIds(rows) != [] {
      assert CanRun(Start(true, rows), []);
      CompleteExactly(true, rows, []);
      assert !Complete(Run(Start(true, rows), []));
    }
  }

  /** A corrupt enabled row at start-up: at rest, no retry flag, and a rule missing in enforce mode. */
  lemma StartupIncomplete()
    ensures var s := Start(true, [Row("r1", 1, None)]);
      s.tasks == map[] && !s.needed && s.engine == [] && !Complete(s)
  {
    var rows := [Row("r1", 1, None)];
    FilterAll(rows, IsEnabled);
    FilterMapNone(rows, ParsedRule);
  }

  /**
   At rest without the flag, the engine is that of the newest table a finished
   rebuild was asked for or read; so it is that of the last committed table
   exactly when that table was.
   */
  lemma AtRestExactly(enforce: bool, rows: seq<Row>, steps: seq<Step>)
    requires CanRun(Start(enforce, rows), steps)
    requires var s := Run(Start(enforce, rows), steps); s.tasks == map[] && !s.needed
    ensures var s := Run(Start(enforce, rows), steps);
      s.carried < |s.snapshots| && s.engine == Rules(s.snapshots[s.carried])
      && (s.installed == s.Latest() <==> s.carried == s.Latest())
      && (enforce ==> Complete(s) || (s.installed == 0 && SkippedIds(rows) != []))
  {
    RunKeepsInv(Start(enforce, rows), steps);
    CompleteExactly(enforce, rows, steps);
    CarriedAtRest(Run(Start(enforce, rows), steps));
  }

  lemma CarriedAtRest(s: State)
    requires Inv(s) && s.tasks == map[] && !s.needed
    ensures s.installed == s.carried
  {
  }

  /**
   When no admin request is dropped, at rest every table committed along with
   a rebuild has been installed or replaced by a later one, or the retry flag
   is up; so after such a commit, if it was the last, the engine is its own.
   */
  lemma AtRestNothingLost(enforce: bool, rows: seq<Row>, steps: seq<Step>)
    requires CanRun(Start(enforce, rows), steps)
    requires forall k :: 0 <= k < |steps| ==> !steps[k].Drop?
    requires Run(Start(enforce, rows), steps).tasks == map[]
    ensures var s := Run(Start(enforce, rows), steps);
      s.snapshots != []
      && (s.needed || s.requested <= s.installed)
      && (s.needed || s.requested < s.Latest() || s.engine == Rules(s.snapshots[s.Latest()]))
  {
    RunKeepsInv(Start(enforce, rows), steps);
    RequestsKept(Start(enforce, rows), steps);
    RequestsAtRest(Run(Start(enforce, rows), steps));
  }

  lemma RequestsAtRest(s: State)
    requires Inv(s) && RequestedInv(s) && s.tasks == map[]
    ensures s.snapshots != []
    ensures s.needed || s.requested <= s.installed
    ensures s.needed || s.requested < s.Latest() || s.engine == Rules(s.snapshots[s.Latest()])
  {
  }

  /** A rule that only the periodic persist commits: at rest, no flag, and not in the engine. */
  lemma PersistLosesRule()
    ensures var steps := [Persist([Row("r1", 1, Some("deny"))])];
      CanRun(Start(true, []), steps)
      && var s := Run(Start(true, []), steps);
         s.tasks == map[] && !s.needed && s.engine == [] && Rules(s.snapshots[s.Latest()]) == ["deny"]
  {
    var rows := [Row("r1", 1, Some("deny"))];
    var step := Persist(rows);
    OneStep(Start(true, []), step);
    OneRule("r1", "deny");
  }

  lemma OneRule(id: string, rule: Rule)
    ensures Rules([Row(id, 1, Some(rule))]) == [rule]
  {
    var row := Row(id, 1, Some(rule));
    FilterAll([row], IsEnabled);
    FilterMapAll([row], ParsedRule);
  }

  /** The same for an admin request whose client goes away between commit and rebuild. */
  lemma DropLosesRule()
    ensures var steps := [CommitRules(0, [Row("r1", 1, Some("deny"))], true), Drop(0)];
      CanRun(Start(true, []), steps)
      && var s := Run(Start(true, []), steps);
         s.tasks == map[] && !s.needed && s.engine == [] && Rules(s.snapshots[s.Latest()]) == ["deny"]
  {
    var commit, drop := CommitRules(0, [Row("r1", 1, Some("deny"))], true), Drop(0);
    var s0 := Start(true, []);
    var s1 := Apply(s0, commit);
    assert [commit, drop][1..] == [drop];
    OneStep(s1, drop);
    assert Apply(s1, drop).tasks == map[];
    OneRule("r1", "deny");
  }

  lemma OneStep(s: State, step: Step)
    requires Enabled(s, step)
    ensures CanRun(s, [step]) && Run(s, [step]) == Apply(s, step)
  {
    var s' := Apply(s, step);
    assert [step][1..] == [];
    assert CanRun(s', []) && Run(s', []) == s';
  }
}
