/**
 The file backend of src/journal.rs as a state machine: any number of threads
 in `send`, the capped queue guarded by an atomic counter, the writer thread,
 and queries that wait for a flush acknowledgement. One step is one atomic
 access, so every interleaving is a sequence of steps.
 */
module JournalQueue {
  import opened Common
  import opened Lists
  import opened JournalStore

  const FILE_QUEUE_CAP: nat := 100_000

  type Tid = nat

  datatype Cmd = Write(ev: Event) | Flush(query: Tid)

  datatype Writer =
    | Waiting
    | Took(ev: Event)        // received, the counter not yet lowered
    | Writing(ev: Event)     // counter lowered, the line not yet written
    | Acking(query: Tid)
    | Gone

  datatype State = State(
    counter: int,
    admitted: map<Tid, Event>,  // past the check, event not yet queued
    refusing: set<Tid>,         // over the cap, increment not yet taken back
    undoing: set<Tid>,          // channel closed, increment not yet taken back
    queue: seq<Cmd>,
    writer: Writer,
    file: seq<Line>,
    acked: set<Tid>,            // queries holding their acknowledgement
    asked: map<Tid, nat>,       // history: queries begun, and how many events had been queued then
    sent: seq<Event>,           // history: events in the order they were queued
    done: seq<(Event, bool)>    // history: events handled, and whether the line was written
  ) {
    predicate Busy(t: Tid) { t in admitted || t in refusing || t in undoing }
  }

  datatype Step =
    | Enter(t: Tid, ev: Event)      // fetch_add and the check of what it returned
    | Enqueue(t: Tid)               // tx.send of an admitted event
    | Refuse(t: Tid)                // fetch_sub after the check failed
    | Undo(t: Tid)                  // fetch_sub after tx.send failed
    | Receive                       // rx.recv
    | Count                         // the writer's fetch_sub
    | Finish(written: bool)         // the line, or a failed write
    | StartQuery(t: Tid)            // a query queues its flush
    | Acknowledge
    | ReadFile(t: Tid)              // a query past its barrier reads and returns
    | Die                           // the writer thread ends and the channel closes

  predicate Enabled(s: State, step: Step) {
    match step
    case Enter(t, _) => !s.Busy(t)
    case Enqueue(t) => t in s.admitted
    case Refuse(t) => t in s.refusing
    case Undo(t) => t in s.undoing
    case Receive => s.writer.Waiting? && s.queue != []
    case Count => s.writer.Took?
    case Finish(_) => s.writer.Writing?
    case StartQuery(t) => t !in s.asked && !s.writer.Gone?
    case Acknowledge => s.writer.Acking?
    case ReadFile(t) => t in s.acked
    case Die => !s.writer.Gone?
  }

  function Apply(s: State, step: Step): State
    requires Enabled(s, step)
  {
    match step
    case Enter(t, ev) =>
      if s.counter >= FILE_QUEUE_CAP
      then s.(counter := s.counter + 1, refusing := s.refusing + {t})
      else s.(counter := s.counter + 1, admitted := s.admitted[t := ev])
    case Enqueue(t) =>
      var ev := s.admitted[t];
      if s.writer.Gone?
      then s.(admitted := s.admitted - {t}, undoing := s.undoing + {t})
      else s.(admitted := s.admitted - {t}, queue := s.queue + [Write(ev)], sent := s.sent + [ev])
    case Refuse(t) => s.(counter := s.counter - 1, refusing := s.refusing - {t})
    case Undo(t) => s.(counter := s.counter - 1, undoing := s.undoing - {t})
    case Receive =>
      s.(queue := s.queue[1..],
         writer := match s.queue[0]
           case Write(ev) => Took(ev)
           case Flush(t) => Acking(t))
    case Count => s.(counter := s.counter - 1, writer := Writing(s.writer.ev))
    case Finish(written) =>
      var ev := s.writer.ev;
      s.(writer := Waiting, done := s.done + [(ev, written)],
         file := if written then s.file + [ev.Written()] else s.file)
    case StartQuery(t) => s.(queue := s.queue + [Flush(t)], asked := s.asked[t := |s.sent|])
    case Acknowledge => s.(writer := Waiting, acked := s.acked + {s.writer.query})
    case ReadFile(t) => s.(acked := s.acked - {t})
    case Die => s.(writer := Gone, queue := [])
  }

  function Init(file: seq<Line>): State {
    State(0, map[], {}, {}, [], Waiting, file, {}, map[], [], [])
  }

  /** A run: every step is enabled where it is taken. */
  predicate CanRun(s: State, steps: seq<Step>)
    decreases |steps|
  {
    steps == [] || (Enabled(s, steps[0]) && CanRun(Apply(s, steps[0]), steps[1..]))
  }

  function Run(s: State, steps: seq<Step>): State
    requires CanRun(s, steps)
    decreases |steps|
  {
    if steps == [] then s else Run(Apply(s, steps[0]), steps[1..])
  }

  // ------------------------------------------------------- counter and cap

  function Writes(queue: seq<Cmd>): nat {
    if queue == [] then 0 else Writes(queue[..|queue| - 1]) + if queue[|queue| - 1].Write? then 1 else 0
  }

  lemma {:induction false} WritesTail(queue: seq<Cmd>)
    requires queue != []
    ensures Writes(queue) == (if queue[0].Write? then 1 else 0) + Writes(queue[1..])
  {
    if |queue| == 1 {
      assert queue[..0] == [] && queue[1..] == [];
    } else {
      var n := |queue| - 1;
      WritesTail(queue[..n]);
      assert queue[..n][1..] == queue[1..][..n - 1];
    }
  }

  function Taken(s: State): nat { if s.writer.Took? then 1 else 0 }

  /** While the writer lives, the counter counts exactly what is under way, and the cap holds. */
  ghost predicate Counted(s: State) {
    s.undoing == {}
    && s.counter == Writes(s.queue) + |s.admitted| + |s.refusing| + Taken(s)
    && Writes(s.queue) + |s.admitted| + Taken(s) <= 100_000
  }

  ghost predicate CounterInv(s: State) {
    s.admitted.Keys !! s.refusing && s.admitted.Keys !! s.undoing && s.refusing !! s.undoing
    && (!s.writer.Gone? ==> Counted(s))
    && (s.writer.Gone? ==> s.queue == [])
    && s.counter >= |s.admitted| + |s.refusing| + |s.undoing|
  }

  lemma CounterEnter(s: State, t: Tid, ev: Event)
    requires CounterInv(s) && !s.Busy(t)
    ensures CounterInv(Apply(s, Enter(t, ev)))
  {
    if s.counter < FILE_QUEUE_CAP {
      MapGrows(s.admitted, t, ev);
    } else {
      assert |s.refusing + {t}| == |s.refusing| + 1;
    }
  }

  lemma MapGrows(m: map<Tid, Event>, t: Tid, ev: Event)
    requires t !in m
    ensures m[t := ev].Keys == m.Keys + {t} && |m[t := ev]| == |m| + 1
  {
  }

  lemma CounterEnqueue(s: State, t: Tid)
    requires CounterInv(s) && t in s.admitted
    ensures CounterInv(Apply(s, Enqueue(t)))
  {
    var s' := Apply(s, Enqueue(t));
    assert s'.admitted.Keys == s.admitted.Keys - {t};
    if !s.writer.Gone? {
      assert s'.queue[..|s.queue|] == s.queue;
    }
  }

  lemma CounterOther(s: State, step: Step)
    requires CounterInv(s) && Enabled(s, step) && !step.Enter? && !step.Enqueue?
    ensures CounterInv(Apply(s, step))
  {
    if step.Receive? {
      WritesTail(s.queue);
    } else if step.StartQuery? {
      assert Apply(s, step).queue[..|s.queue|] == s.queue;
    }
  }

  /**
   In every run of any number of senders with a live writer, waiting writes
   plus admitted senders never exceed the cap, the counter is the sum of
   waiting, admitted, being refused and taken, and it never underflows, not
   even after the writer is gone.
   */
  lemma {:induction false} QueueBounded(s: State, steps: seq<Step>)
    requires CounterInv(s) && CanRun(s, steps)
    ensures CounterInv(Run(s, steps))
    ensures Run(s, steps).counter >= 0
    decreases |steps|
  {
    if steps != [] {
      match steps[0]
      case Enter(t, ev) => CounterEnter(s, t, ev);
      case Enqueue(t) => CounterEnqueue(s, t);
      case _ => CounterOther(s, steps[0]);
    }
    if steps != [] {
      QueueBounded(Apply(s, steps[0]), steps[1..]);
    }
  }

  /**
   With a live writer a sender is refused exactly when writes waiting, taken
   and admitted, together with senders still being refused, reach the cap; so
   a refusal below the cap has another refusal beside it.
   */
  lemma RefusedExactly(s: State, t: Tid, ev: Event)
    requires CounterInv(s) && !s.writer.Gone? && !s.Busy(t)
    ensures var s' := Apply(s, Enter(t, ev));
      var pending := Writes(s.queue) + |s.admitted| + Taken(s);
      (t in s'.refusing <==> pending + |s.refusing| >= FILE_QUEUE_CAP)
      && (t in s'.refusing <==> t !in s'.admitted)
      && (t in s'.refusing && pending < FILE_QUEUE_CAP ==> s.refusing != {})
  {
  }

  lemma InitCounter(file: seq<Line>)
    ensures CounterInv(Init(file))
  {
  }

  /** What a thread was admitted with is what it queues, whatever the others do in between. */
  lemma {:induction false} AdmittedStays(s: State, steps: seq<Step>, t: Tid)
    requires CanRun(s, steps) && t in s.admitted && t !in s.refusing && t !in s.undoing
    requires forall k :: 0 <= k < |steps| ==> steps[k] != Enqueue(t)
    ensures var s' := Run(s, steps); t in s'.admitted && s'.admitted[t] == s.admitted[t]
    decreases |steps|
  {
    if steps != [] {
      assert steps[0] != Enqueue(t);
      AdmittedStays(Apply(s, steps[0]), steps[1..], t);
    }
  }

  /** An event that is admitted while the writer lives is queued as it is, behind all queued before it. */
  lemma AdmittedIsSent(s: State, t: Tid, ev: Event, between: seq<Step>)
    requires Enabled(s, Enter(t, ev)) && s.counter < 100_000
    requires CanRun(Apply(s, Enter(t, ev)), between)
    requires forall k :: 0 <= k < |between| ==> between[k] != Enqueue(t)
    requires !Run(Apply(s, Enter(t, ev)), between).writer.Gone?
    ensures var s' := Run(Apply(s, Enter(t, ev)), between);
      Enabled(s', Enqueue(t))
      && Apply(s', Enqueue(t)).sent == s'.sent + [ev]
      && Apply(s', Enqueue(t)).queue == s'.queue + [Write(ev)]
  {
    AdmittedStays(Apply(s, Enter(t, ev)), between, t);
  }

  // --------------------------------------------------------- flush barrier

  function InFlight(s: State): seq<Event> {
    if s.writer.Took? || s.writer.Writing? then [s.writer.ev] else []
  }

  function Queued(queue: seq<Cmd>): (r: seq<Event>)
    ensures |r| == Writes(queue)
  {
    if queue == [] then []
    else
      var last := queue[|queue| - 1];
      Queued(queue[..|queue| - 1]) + if last.Write? then [last.ev] else []
  }

  lemma {:induction false} QueuedTail(queue: seq<Cmd>)
    requires queue != []
    ensures Queued(queue) == (if queue[0].Write? then [queue[0].ev] else []) + Queued(queue[1..])
  {
    if |queue| == 1 {
      assert queue[..0] == [] && queue[1..] == [];
    } else {
      var n := |queue| - 1;
      QueuedTail(queue[..n]);
      assert queue[..n][1..] == queue[1..][..n - 1];
    }
  }

  ghost function Handled(done: seq<(Event, bool)>): (r: seq<Event>)
    ensures |r| == |done|
  {
    seq(|done|, i requires 0 <= i < |done| => done[i].0)
  }

  /** Lines the writer added. */
  ghost function LinesOf(done: seq<(Event, bool)>): seq<Line> {
    if done == [] then []
    else
      var last := done[|done| - 1];
      LinesOf(done[..|done| - 1]) + if last.1 then [last.0.Written()] else []
  }

  /** First in, first out: what was queued is handled, in flight or waiting, in that order. */
  ghost predicate FifoInv(s: State, file0: seq<Line>) {
    s.file == file0 + LinesOf(s.done)
    && Handled(s.done) + InFlight(s) + Queued(s.queue) <= s.sent
    && (!s.writer.Gone? ==> s.sent == Handled(s.done) + InFlight(s) + Queued(s.queue))
  }

  lemma FifoEnqueue(s: State, t: Tid, file0: seq<Line>)
    requires FifoInv(s, file0) && t in s.admitted
    ensures FifoInv(Apply(s, Enqueue(t)), file0)
  {
    if !s.writer.Gone? {
      var ev := s.admitted[t];
      QueuedAppend(s.queue, ev);
      AppendAssoc(Handled(s.done) + InFlight(s), Queued(s.queue), [ev]);
    }
  }

  lemma QueuedAppend(queue: seq<Cmd>, ev: Event)
    ensures Queued(queue + [Write(ev)]) == Queued(queue) + [ev]
  {
    assert (queue + [Write(ev)])[..|queue|] == queue;
  }

  lemma FifoReceive(s: State, file0: seq<Line>)
    requires FifoInv(s, file0) && Enabled(s, Receive)
    ensures FifoInv(Apply(s, Receive), file0)
  {
    QueuedTail(s.queue);
    var s' := Apply(s, Receive);
    assert Queued(s.queue) == InFlight(s') + Queued(s'.queue);
  }

  lemma FifoFinish(s: State, written: bool, file0: seq<Line>)
    requires FifoInv(s, file0) && s.writer.Writing?
    ensures FifoInv(Apply(s, Finish(written)), file0)
  {
    var s' := Apply(s, Finish(written));
    assert s'.done[..|s.done|] == s.done;
    assert Handled(s'.done) == Handled(s.done) + [s.writer.ev];
  }

  lemma FifoStartQuery(s: State, t: Tid, file0: seq<Line>)
    requires FifoInv(s, file0) && Enabled(s, StartQuery(t))
    ensures FifoInv(Apply(s, StartQuery(t)), file0)
  {
    var queue := s.queue + [Flush(t)];
    assert queue[..|s.queue|] == s.queue;
    assert Queued(queue) == Queued(s.queue) + [] == Queued(s.queue);
  }

  lemma FifoStep(s: State, step: Step, file0: seq<Line>)
    requires FifoInv(s, file0) && Enabled(s, step)
    ensures FifoInv(Apply(s, step), file0)
  {
    match step
    case Enqueue(t) => FifoEnqueue(s, t, file0);
    case Receive => FifoReceive(s, file0);
    case Finish(written) => FifoFinish(s, written, file0);
    case StartQuery(t) => FifoStartQuery(s, t, file0);
    case Die => FifoDie(s, file0);
    case _ =>
      assert Apply(s, step).done == s.done && Apply(s, step).queue == s.queue && Apply(s, step).sent == s.sent;
      assert InFlight(Apply(s, step)) == InFlight(s);
  }

  lemma FifoDie(s: State, file0: seq<Line>)
    requires FifoInv(s, file0)
    ensures FifoInv(s.(writer := Gone, queue := []), file0)
  {
    assert Handled(s.done) + [] + [] == Handled(s.done);
  }

  /** A flush stands behind every event that was queued before its query began. */
  ghost predicate BarrierInv(s: State) {
    (forall i :: 0 <= i < |s.queue| && s.queue[i].Flush? ==>
       s.queue[i].query in s.asked
       && s.asked[s.queue[i].query] <= |s.done| + |InFlight(s)| + Writes(s.queue[..i]))
    && (s.writer.Acking? ==> s.writer.query in s.asked && s.asked[s.writer.query] <= |s.done|)
    && (forall t :: t in s.acked ==> t in s.asked && s.asked[t] <= |s.done|)
  }

  lemma BarrierReceive(s: State)
    requires BarrierInv(s) && Enabled(s, Receive)
    ensures BarrierInv(Apply(s, Receive))
  {
    var s' := Apply(s, Receive);
    forall i | 0 <= i < |s'.queue| && s'.queue[i].Flush?
      ensures s'.queue[i].query in s'.asked
      ensures s'.asked[s'.queue[i].query] <= |s'.done| + |InFlight(s')| + Writes(s'.queue[..i])
    {
      var front := s.queue[..i + 1];
      assert s.queue[i + 1] == s'.queue[i];
      WritesTail(front);
      assert front[1..] == s'.queue[..i];
    }
    assert s.queue[0].Flush? ==> |InFlight(s)| + Writes(s.queue[..0]) == 0;
  }

  lemma BarrierEnqueue(s: State, t: Tid)
    requires BarrierInv(s) && t in s.admitted
    ensures BarrierInv(Apply(s, Enqueue(t)))
  {
    var s' := Apply(s, Enqueue(t));
    forall i | 0 <= i < |s'.queue| && s'.queue[i].Flush?
      ensures s'.queue[i].query in s'.asked
      ensures s'.asked[s'.queue[i].query] <= |s'.done| + |InFlight(s')| + Writes(s'.queue[..i])
    {
      assert s'.queue[..i] == s.queue[..i] && s'.queue[i] == s.queue[i];
    }
  }

  lemma BarrierStart(s: State, t: Tid, file0: seq<Line>)
    requires FifoInv(s, file0) && BarrierInv(s) && Enabled(s, StartQuery(t))
    ensures BarrierInv(Apply(s, StartQuery(t)))
  {
    var s' := Apply(s, StartQuery(t));
    forall i | 0 <= i < |s'.queue| && s'.queue[i].Flush?
      ensures s'.queue[i].query in s'.asked
      ensures s'.asked[s'.queue[i].query] <= |s'.done| + |InFlight(s')| + Writes(s'.queue[..i])
    {
      assert s'.queue[..i] == s.queue[..i];
      assert i < |s.queue| ==> s'.queue[i] == s.queue[i];
      assert i == |s.queue| ==> s.queue[..i] == s.queue;
    }
  }

  lemma BarrierStep(s: State, step: Step, file0: seq<Line>)
    requires FifoInv(s, file0) && BarrierInv(s) && Enabled(s, step)
    ensures BarrierInv(Apply(s, step))
  {
    match step
    case Enqueue(t) => BarrierEnqueue(s, t);
    case StartQuery(t) => BarrierStart(s, t, file0);
    case Receive => BarrierReceive(s);
    case _ =>
  }

  lemma {:induction false} BarrierRun(s: State, steps: seq<Step>, file0: seq<Line>)
    requires FifoInv(s, file0) && BarrierInv(s) && CanRun(s, steps)
    ensures FifoInv(Run(s, steps), file0) && BarrierInv(Run(s, steps))
    decreases |steps|
  {
    if steps != [] {
      FifoStep(s, steps[0], file0);
      BarrierStep(s, steps[0], file0);
      BarrierRun(Apply(s, steps[0]), steps[1..], file0);
    }
  }

  /** Line number, within the lines the writer added, of the `i`th event handled. */
  ghost function LineNo(done: seq<(Event, bool)>, i: nat): nat
    requires i <= |done|
  {
    |LinesOf(done[..i])|
  }

  lemma {:induction false} LineOf(done: seq<(Event, bool)>, i: nat)
    requires i < |done| && done[i].1
    ensures LineNo(done, i) < |LinesOf(done)|
    ensures LinesOf(done)[LineNo(done, i)] == done[i].0.Written()
  {
    var n := |done| - 1;
    if i < n {
      LineOf(done[..n], i);
      assert done[..n][..i] == done[..i];
    }
  }

  lemma {:induction false} HistoryGrows(s: State, steps: seq<Step>)
    requires CanRun(s, steps)
    ensures s.sent <= Run(s, steps).sent
    ensures forall t :: t in s.asked ==> t in Run(s, steps).asked && Run(s, steps).asked[t] == s.asked[t]
    decreases |steps|
  {
    if steps != [] {
      HistoryGrows(Apply(s, steps[0]), steps[1..]);
    }
  }

  /** The row of a sent event is in the answer to a wide enough query. */
  ghost predicate Listed(file: seq<Line>, at: nat, ev: Event, q: Query) {
    at < |file| && file[at] == ev.Written()
    && (at < MAX_QUERY_LINES && q.offset == 0 && q.limit >= |file| ==>
          LineRow(ev.Written(), q).Some? ==>
            LineRow(ev.Written(), q).value in QueryFile(file, q))
  }

  lemma LineIsListed(file: seq<Line>, at: nat, ev: Event, q: Query)
    requires at < |file| && file[at] == ev.Written()
    ensures Listed(file, at, ev, q)
  {
    if at < MAX_QUERY_LINES && q.offset == 0 && q.limit >= |file| && LineRow(file[at], q).Some? {
      RowIsListed(file, at, q);
    }
  }

  lemma HandledIsListed(s: State, file0: seq<Line>, t: Tid, i: nat, q: Query)
    requires FifoInv(s, file0) && BarrierInv(s) && t in s.acked && t in s.asked && i < s.asked[t]
    ensures i < |s.done| && i < |s.sent| && s.done[i].0 == s.sent[i]
    ensures s.done[i].1 ==> Listed(s.file, |file0| + LineNo(s.done, i), s.sent[i], q)
  {
    assert Handled(s.done)[i] == s.sent[i];
    if s.done[i].1 {
      LineOf(s.done, i);
      LineIsListed(s.file, |file0| + LineNo(s.done, i), s.sent[i], q);
    }
  }

  /**
   Take any run up to a query, then any run after it in which the query got
   its acknowledgement. Every event queued before the query began has been
   handled; unless its write failed it is in the file, at a place fixed by the
   order of sending, and its row is in the answer when the line is among the
   first 500 000, matches, and the page is wide enough.
   */
  lemma FlushBarrier(file0: seq<Line>, before: seq<Step>, t: Tid, after: seq<Step>, i: nat, q: Query)
    requires CanRun(Init(file0), before)
    requires Enabled(Run(Init(file0), before), StartQuery(t))
    requires CanRun(Apply(Run(Init(file0), before), StartQuery(t)), after)
    requires i < |Run(Init(file0), before).sent|
    requires t in Run(Apply(Run(Init(file0), before), StartQuery(t)), after).acked
    ensures var ev := Run(Init(file0), before).sent[i];
      var s := Run(Apply(Run(Init(file0), before), StartQuery(t)), after);
      i < |s.done| && s.done[i].0 == ev
      && (s.done[i].1 ==> Listed(s.file, |file0| + LineNo(s.done, i), ev, q))
  {
    var s0 := Run(Init(file0), before);
    InitFifo(file0);
    BarrierRun(Init(file0), before, file0);
    AfterQuery(s0, t, after, file0);
    HandledIsListed(Run(Apply(s0, StartQuery(t)), after), file0, t, i, q);
  }

  lemma InitFifo(file0: seq<Line>)
    ensures FifoInv(Init(file0), file0) && BarrierInv(Init(file0))
  {
    assert file0 + [] == file0;
  }

  /** From the start of a query on: the invariants, and how many events it waits for. */
  lemma AfterQuery(s0: State, t: Tid, after: seq<Step>, file0: seq<Line>)
    requires FifoInv(s0, file0) && BarrierInv(s0) && Enabled(s0, StartQuery(t))
    requires CanRun(Apply(s0, StartQuery(t)), after)
    ensures var s := Run(Apply(s0, StartQuery(t)), after);
      FifoInv(s, file0) && BarrierInv(s) && s0.sent <= s.sent && t in s.asked && s.asked[t] == |s0.sent|
  {
    var s1 := Apply(s0, StartQuery(t));
    FifoStep(s0, StartQuery(t), file0);
    BarrierStep(s0, StartQuery(t), file0);
    BarrierRun(s1, after, file0);
    HistoryGrows(s1, after);
  }

  lemma RowIsListed(file: seq<Line>, at: nat, q: Query)
    requires at < |file| && at < MAX_QUERY_LINES && LineRow(file[at], q).Some?
    requires q.offset == 0 && q.limit >= |file|
    ensures LineRow(file[at], q).value in QueryFile(file, q)
  {
    var lines := Take(file, MAX_QUERY_LINES);
    var rows := FilterMap(lines, ReadLine(q));
    FilterMapFinds(lines, at, ReadLine(q));
    FilterMapShorter(lines, ReadLine(q));
    ReverseKeeps(rows, LineRow(file[at], q).value);
  }

  /** The answer without the limit on lines. */
  function QueryWhole(file: seq<Line>, q: Query): seq<Row> {
    Page(Reverse(FilterMap(file, ReadLine(q))), q)
  }

  lemma LimitNeutral(file: seq<Line>, q: Query)
    requires forall i :: MAX_QUERY_LINES <= i < |file| ==> LineEntry(file[i]).None?
    ensures QueryFile(file, q) == QueryWhole(file, q)
  {
    var lines, rest, read := Take(file, MAX_QUERY_LINES), Skip(file, MAX_QUERY_LINES), ReadLine(q);
    assert file == lines + rest;
    FilterMapConcat(lines, rest, read);
    assert forall i :: 0 <= i < |rest| ==> rest[i] == file[i + MAX_QUERY_LINES];
    FilterMapNone(rest, read);
    assert FilterMap(lines, read) + [] == FilterMap(lines, read);
  }

  /** The limit changes no answer exactly when no line past it is an entry. */
  lemma LimitExactly(file: seq<Line>)
    ensures (forall q :: QueryFile(file, q) == QueryWhole(file, q))
      <==> forall i :: MAX_QUERY_LINES <= i < |file| ==> LineEntry(file[i]).None?
  {
    if forall i :: MAX_QUERY_LINES <= i < |file| ==> LineEntry(file[i]).None? {
      forall q ensures QueryFile(file, q) == QueryWhole(file, q) {
        LimitNeutral(file, q);
      }
    }
    forall i | MAX_QUERY_LINES <= i < |file| && LineEntry(file[i]).Some?
      ensures exists q :: QueryFile(file, q) != QueryWhole(file, q)
    {
      LimitHides(file, i);
    }
  }

  lemma LimitHides(file: seq<Line>, i: nat)
    requires MAX_QUERY_LINES <= i < |file| && LineEntry(file[i]).Some?
    ensures QueryFile(file, Everything(|file|)) != QueryWhole(file, Everything(|file|))
  {
    var lines, rest := Take(file, MAX_QUERY_LINES), Skip(file, MAX_QUERY_LINES);
    var read := ReadLine(Everything(|file|));
    assert file == lines + rest && rest[i - MAX_QUERY_LINES] == file[i];
    FilterMapConcat(lines, rest, read);
    FilterMapFinds(rest, i - MAX_QUERY_LINES, read);
    FilterMapShorter(file, read);
    assert |QueryWhole(file, Everything(|file|))| > |QueryFile(file, Everything(|file|))|;
  }

  /** Lines past the first 500 000 have no part in any answer. */
  lemma OldestLinesOnly(file: seq<Line>, more: seq<Line>, q: Query)
    requires |file| >= MAX_QUERY_LINES
    ensures QueryFile(file + more, q) == QueryFile(file, q)
  {
    assert Take(file + more, MAX_QUERY_LINES) == Take(file, MAX_QUERY_LINES);
  }
}
