/**
 The persist transaction of a STAR reissue (src/star.rs) racing with
 cancellation (src/db/orders.rs), with crashes and with the periodic gossip
 persist, which writes over an order the certificate its replicated copy knows:
 any number of renewals in flight, one step per statement. A guarded UPDATE
 reads the committed row and locks it until its transaction ends.
 */
module StarTx {
  import opened Common
  import opened Lists

  type Id = string

  /** `persisted` is history: whether the gossip persist wrote `current` last. */
  datatype OrderRow = OrderRow(canceled: bool, current: Option<Id>, persisted: bool)

  datatype CertRow = CertRow(id: Id, order: Id)

  datatype Tx = Begun(row: CertRow) | Inserted(row: CertRow) | Updated(row: CertRow)

  /** Committed tables, and the transactions in flight. */
  datatype Db = Db(orders: map<Id, OrderRow>, certs: seq<CertRow>, txs: map<nat, Tx>) {
    ghost predicate Locked(order: Id) {
      exists t :: t in txs && txs[t].Updated? && txs[t].row.order == order
    }
  }

  datatype Step =
    | Begin(t: nat, row: CertRow)
    | Insert(t: nat)
    | Update(t: nat)
    | Commit(t: nat)
    | Abort(t: nat)          // an error, or the whole transaction dropped
    | Cancel(order: Id)
    | Persist(order: Id, current: Option<Id>)
    | Crash

  ghost predicate Enabled(db: Db, step: Step) {
    match step
    case Begin(t, row) => t !in db.txs
    case Insert(t) => t in db.txs && db.txs[t].Begun? && db.txs[t].row.order in db.orders
    case Update(t) => t in db.txs && db.txs[t].Inserted? && !db.Locked(db.txs[t].row.order)
    case Commit(t) => t in db.txs && db.txs[t].Updated?
    case Abort(t) => t in db.txs
    case Cancel(order) => order in db.orders && !db.Locked(order)
    case Persist(order, _) => order in db.orders && !db.Locked(order)
    case Crash => true
  }

  function Apply(db: Db, step: Step): Db
    requires match step
      case Insert(t) => t in db.txs
      case Update(t) => t in db.txs
      case Commit(t) => t in db.txs
      case Cancel(order) => order in db.orders
      case Persist(order, _) => order in db.orders
      case _ => true
  {
    match step
    case Begin(t, row) => db.(txs := db.txs[t := Begun(row)])
    case Insert(t) => db.(txs := db.txs[t := Inserted(db.txs[t].row)])
    case Update(t) =>
      var row := db.txs[t].row;
      if row.order in db.orders && !db.orders[row.order].canceled
      then db.(txs := db.txs[t := Updated(row)])
      else db.(txs := db.txs - {t})
    case Commit(t) =>
      var row := db.txs[t].row;
      Db(if row.order in db.orders
         then db.orders[row.order := db.orders[row.order].(current := Some(row.id), persisted := false)]
         else db.orders,
         db.certs + [row], db.txs - {t})
    case Abort(t) => db.(txs := db.txs - {t})
    case Cancel(order) => db.(orders := db.orders[order := db.orders[order].(canceled := true)])
    case Persist(order, current) =>
      db.(orders := db.orders[order := db.orders[order].(current := current, persisted := true)])
    case Crash => db.(txs := map[])
  }

  ghost predicate CanRun(db: Db, steps: seq<Step>)
    decreases |steps|
  {
    steps == [] || (Enabled(db, steps[0]) && CanRun(Apply(db, steps[0]), steps[1..]))
  }

  ghost function Run(db: Db, steps: seq<Step>): Db
    requires CanRun(db, steps)
    decreases |steps|
  {
    if steps == [] then db else Run(Apply(db, steps[0]), steps[1..])
  }

  // ------------------------------------------------------------ invariant

  function OfOrder(order: Id): CertRow -> bool { (row: CertRow) => row.order == order }

  function RowsOf(db: Db, order: Id): seq<CertRow> { Filter(db.certs, OfOrder(order)) }

  /** A pending update is of an order that exists and is not canceled, and locks it alone. */
  ghost predicate LocksOk(db: Db) {
    (forall t :: t in db.txs && db.txs[t].Updated? ==>
       db.txs[t].row.order in db.orders && !db.orders[db.txs[t].row.order].canceled)
    && (forall t, u :: t in db.txs && u in db.txs && db.txs[t].Updated? && db.txs[u].Updated? ==>
          db.txs[t].row.order == db.txs[u].row.order ==> t == u)
  }

  ghost predicate CurrentIs(db: Db, order: Id)
    requires order in db.orders
  {
    var rows := RowsOf(db, order);
    rows != [] ==> db.orders[order].current == Some(rows[|rows| - 1].id)
  }

  /** The current certificate of every order is the last row stored for it, unless a persist wrote it since. */
  ghost predicate Inv(db: Db) {
    LocksOk(db) && forall order :: order in db.orders ==> db.orders[order].persisted || CurrentIs(db, order)
  }

  lemma LocksStep(db: Db, step: Step)
    requires LocksOk(db) && Enabled(db, step)
    ensures LocksOk(Apply(db, step))
  {
  }

  lemma CommitKeepsCurrent(db: Db, t: nat, order: Id)
    requires Inv(db) && Enabled(db, Commit(t)) && order in db.orders
    ensures var db' := Apply(db, Commit(t)); db'.orders[order].persisted || CurrentIs(db', order)
  {
    FilterAppend(db.certs, db.txs[t].row, OfOrder(order));
  }

  lemma StepKeepsInv(db: Db, step: Step)
    requires Inv(db) && Enabled(db, step)
    ensures Inv(Apply(db, step))
  {
    LocksStep(db, step);
    var db' := Apply(db, step);
    forall order | order in db'.orders ensures db'.orders[order].persisted || CurrentIs(db', order) {
      if step.Commit? {
        CommitKeepsCurrent(db, step.t, order);
      } else {
        assert db.orders[order].persisted || CurrentIs(db, order);
      }
    }
  }

  lemma {:induction false} RunKeepsInv(db: Db, steps: seq<Step>)
    requires Inv(db) && CanRun(db, steps)
    ensures Inv(Run(db, steps))
    decreases |steps|
  {
    if steps != [] {
      StepKeepsInv(db, steps[0]);
      RunKeepsInv(Apply(db, steps[0]), steps[1..]);
    }
  }

  // ----------------------------------------------------------------- laws

  /**
   Whatever interleaving led here, a step either leaves the certificate table
   alone or stores one row, of an order not canceled, and makes it that
   order's current certificate in the same commit.
   */
  lemma StoredIsCurrent(start: Db, steps: seq<Step>, step: Step)
    requires Inv(start) && CanRun(start, steps) && Enabled(Run(start, steps), step)
    ensures var db := Run(start, steps);
      var db' := Apply(db, step);
      db'.certs == db.certs
      || exists row: CertRow ::
           db'.certs == db.certs + [row]
           && row.order in db.orders && !db.orders[row.order].canceled
           && db'.orders == db.orders[row.order := OrderRow(false, Some(row.id), false)]
  {
    RunKeepsInv(start, steps);
    var db := Run(start, steps);
    if step.Commit? {
      var row := db.txs[step.t].row;
      assert Apply(db, step).certs == db.certs + [row];
    }
  }

  /**
   A persist leaves the last stored certificate current exactly when its copy
   of the order knows that certificate, which no renewal tells it.
   */
  lemma PersistExactly(db: Db, order: Id, current: Option<Id>)
    requires order in db.orders
    ensures var db' := Apply(db, Persist(order, current));
      var rows := RowsOf(db, order);
      CurrentIs(db', order) <==> rows == [] || current == Some(rows[|rows| - 1].id)
  {
    assert RowsOf(Apply(db, Persist(order, current)), order) == RowsOf(db, order);
  }

  /** Once an order is canceled it stays so and gains no certificate, in any run. */
  lemma {:induction false} CanceledGainsNothing(db: Db, steps: seq<Step>, order: Id)
    requires Inv(db) && CanRun(db, steps)
    requires order in db.orders && db.orders[order].canceled
    ensures order in Run(db, steps).orders && Run(db, steps).orders[order].canceled
    ensures (forall k :: 0 <= k < |steps| ==> !steps[k].Persist?) ==>
      Run(db, steps).orders[order] == db.orders[order]
    ensures RowsOf(Run(db, steps), order) == RowsOf(db, order)
    decreases |steps|
  {
    if steps != [] {
      var db' := Apply(db, steps[0]);
      StepKeepsInv(db, steps[0]);
      if steps[0].Commit? {
        FilterAppend(db.certs, db.txs[steps[0].t].row, OfOrder(order));
        assert db.txs[steps[0].t].row.order != order;
      }
      CanceledGainsNothing(db', steps[1..], order);
    }
  }
}
