/**
 The upstream delegation driver (src/delegation_upstream.rs, RFC 9115) with
 the order updates of src/db/orders.rs. What the upstream CA and the scripts
 answer is an input. A drive is the list of effects it would have; a crash, or
 a failed statement, keeps a prefix of that list.
 */
module Delegation {
  import opened Common
  import opened Lists

  type Id = string

  datatype Status = Processing | Valid | Invalid | Other

  datatype OrderRow = OrderRow(
    delegation: bool, status: Status, expires: Option<int>,
    identifiersOk: bool,          // decode to a non-empty list
    hasCsr: bool,
    upstreamOrderUrl: Option<string>, upstreamCertUrl: Option<string>, certificateId: Option<Id>)

  datatype CertRow = CertRow(id: Id, order: Id)

  datatype Config = Config(dns01: bool, deployScript: bool, cleanupScript: bool)

  // -------------------------------------------------------------- answers

  datatype AuthzStatus = AuthzValid | AuthzPending | AuthzOther

  /** What is learned about one authorization, down to the last call made for it. */
  datatype Authz = Authz(status: AuthzStatus, challenge: Option<string>, hasToken: bool,
                         txtOk: bool, deployOk: bool, triggerOk: bool)

  datatype UpStatus = UpPending | UpReady | UpProcessing | UpValid | UpInvalid | UpOther

  datatype Order2 = Order2(status: UpStatus, authz: seq<Option<Authz>>, certificate: Option<string>)

  datatype Finalized = Finalized(url: string, valid: bool, certificate: Option<string>)

  /** `None` stands for a call that failed; `certId` for a download that parsed. */
  datatype Answers = Answers(newOrder: Option<string>, getOrder: Option<Order2>,
                             finalize: Option<Finalized>, certId: Option<Id>)

  // -------------------------------------------------------------- effects

  datatype Effect =
    | Place(order: Id)                                // new_order upstream
    | RecordUrl(order: Id, url: string)
    | Deploy(challenge: string)
    | Trigger(challenge: string)
    | Cleanup(challenge: string)
    | SubmitFinalize(order: Id)
    | Complete(order: Id, cert: Id, certUrl: string)  // the three-statement transaction
    | MarkInvalid(order: Id)

  function CleanupOf(cfg: Config, z: Authz): seq<Effect> {
    if cfg.dns01 && cfg.cleanupScript && z.challenge.Some? && z.hasToken && z.txtOk
    then [Cleanup(z.challenge.value)] else []
  }

  /** One authorization: its effects, and whether the loop goes on. */
  function SatisfyOne(cfg: Config, answer: Option<Authz>): (seq<Effect>, bool) {
    match answer
    case None => ([], false)
    case Some(z) =>
      if z.status == AuthzValid then (CleanupOf(cfg, z), true)
      else if z.status != AuthzPending || z.challenge.None? || !z.hasToken then ([], false)
      else if !cfg.dns01 || !z.txtOk || !cfg.deployScript || !z.deployOk then ([], false)
      else ([Deploy(z.challenge.value), Trigger(z.challenge.value)], z.triggerOk)
  }

  function Satisfy(cfg: Config, answers: seq<Option<Authz>>): seq<Effect> {
    if answers == [] then []
    else
      var (effects, go) := SatisfyOne(cfg, answers[0]);
      effects + if go then Satisfy(cfg, answers[1..]) else []
  }

  method SatisfyAuthorizations(cfg: Config, answers: seq<Option<Authz>>) returns (effects: seq<Effect>)
    ensures effects == Satisfy(cfg, answers)
    ensures exists blocks :: Worked(cfg, answers, blocks) && effects == Concat(blocks)
  {
    SatisfyExactly(cfg, answers);
    effects := [];
    for i := 0 to |answers|
      invariant effects + Satisfy(cfg, answers[i..]) == Satisfy(cfg, answers)
    {
      var (more, go) := SatisfyOne(cfg, answers[i]);
      SatisfyStep(cfg, answers, i, effects);
      effects := effects + more;
      if !go {
        return;
      }
    }
  }

  lemma SatisfyStep(cfg: Config, answers: seq<Option<Authz>>, i: nat, effects: seq<Effect>)
    requires i < |answers|
    ensures var (more, go) := SatisfyOne(cfg, answers[i]);
      effects + Satisfy(cfg, answers[i..])
      == if go then effects + more + Satisfy(cfg, answers[i + 1..]) else effects + more
  {
    assert answers[i..][1..] == answers[i + 1..];
  }

  // -------------------------------- what each authorization gets, and when

  /** A pending authorization that can be answered, down to a deploy script that succeeds. */
  predicate Answerable(cfg: Config, z: Authz) {
    z.status == AuthzPending && z.challenge.Some? && z.hasToken
    && cfg.dns01 && z.txtOk && cfg.deployScript && z.deployOk
  }

  predicate Cleanable(cfg: Config, z: Authz) {
    cfg.dns01 && cfg.cleanupScript && z.challenge.Some? && z.hasToken && z.txtOk
  }

  /** The answers after which the loop goes on: all others end it. */
  predicate Continues(cfg: Config, answer: Option<Authz>) {
    answer.Some? && (answer.value.status == AuthzValid || (Answerable(cfg, answer.value) && answer.value.triggerOk))
  }

  /** The effects of one authorization the loop came to. */
  ghost predicate Gets(cfg: Config, answer: Option<Authz>, es: seq<Effect>) {
    if answer.Some? && Answerable(cfg, answer.value)
    then es == [Deploy(answer.value.challenge.value), Trigger(answer.value.challenge.value)]
    else if answer.Some? && answer.value.status == AuthzValid && Cleanable(cfg, answer.value)
    then es == [Cleanup(answer.value.challenge.value)]
    else es == []
  }

  /** Block `i` belongs to authorization `i`; the last one is the end of the list or ended the loop. */
  ghost predicate Worked(cfg: Config, answers: seq<Option<Authz>>, blocks: seq<seq<Effect>>) {
    |blocks| <= |answers|
    && (forall i :: 0 <= i < |blocks| ==> Gets(cfg, answers[i], blocks[i]))
    && (forall i :: 0 <= i < |blocks| - 1 ==> Continues(cfg, answers[i]))
    && (|blocks| == |answers| || (blocks != [] && !Continues(cfg, answers[|blocks| - 1])))
  }

  /** The effects are those of the authorizations come to, one after the other, in the order of the list. */
  lemma {:induction false} SatisfyExactly(cfg: Config, answers: seq<Option<Authz>>)
    ensures exists blocks :: Worked(cfg, answers, blocks) && Satisfy(cfg, answers) == Concat(blocks)
  {
    if answers == [] {
      var none: seq<seq<Effect>> := [];
      assert Worked(cfg, answers, none) && Concat(none) == [];
    } else {
      var (effects, go) := SatisfyOne(cfg, answers[0]);
      assert Gets(cfg, answers[0], effects) && go == Continues(cfg, answers[0]);
      if go {
        SatisfyExactly(cfg, answers[1..]);
        var rest :| Worked(cfg, answers[1..], rest) && Satisfy(cfg, answers[1..]) == Concat(rest);
        WorkedCons(cfg, answers, effects, rest);
      } else {
        ConcatOne(effects);
        assert effects + [] == effects;
        assert Worked(cfg, answers, [effects]);
      }
    }
  }

  lemma WorkedCons(cfg: Config, answers: seq<Option<Authz>>, effects: seq<Effect>, rest: seq<seq<Effect>>)
    requires answers != [] && Gets(cfg, answers[0], effects) && Continues(cfg, answers[0])
    requires Worked(cfg, answers[1..], rest)
    ensures Worked(cfg, answers, [effects] + rest) && Concat([effects] + rest) == effects + Concat(rest)
  {
    var blocks, tail := [effects] + rest, answers[1..];
    assert blocks[1..] == rest;
    assert forall i :: 1 <= i < |blocks| ==> blocks[i] == rest[i - 1];
    assert forall i :: 1 <= i < |answers| ==> answers[i] == tail[i - 1];
  }

  /** Authorization `i` is deployed and triggered exactly when it is answerable and all before it let the loop go on. */
  lemma AnsweredExactly(cfg: Config, answers: seq<Option<Authz>>, blocks: seq<seq<Effect>>, i: nat)
    requires Worked(cfg, answers, blocks) && i < |answers|
    ensures (i < |blocks| && exists c :: blocks[i] == [Deploy(c), Trigger(c)]) <==>
      (forall j :: 0 <= j < i ==> Continues(cfg, answers[j]))
      && answers[i].Some? && Answerable(cfg, answers[i].value)
  {
    if i < |blocks| {
      assert Gets(cfg, answers[i], blocks[i]);
      if answers[i].Some? && Answerable(cfg, answers[i].value) {
        var c := answers[i].value.challenge.value;
        assert blocks[i] == [Deploy(c), Trigger(c)];
      }
    } else {
      assert !Continues(cfg, answers[|blocks| - 1]);
    }
  }

  /** Block `i` is the cleanup of authorization `i`, whatever its status, or nothing. */
  ghost predicate CleanedUp(cfg: Config, answers: seq<Option<Authz>>, blocks: seq<seq<Effect>>) {
    |blocks| == |answers|
    && forall i :: 0 <= i < |answers| ==>
         blocks[i] == if answers[i].Some? && Cleanable(cfg, answers[i].value)
                      then [Cleanup(answers[i].value.challenge.value)] else []
  }

  /** Before finalization each authorization gets its cleanup, in the order of the list, and nothing else. */
  lemma {:induction false} CleanupExactly(cfg: Config, answers: seq<Option<Authz>>)
    ensures exists blocks :: CleanedUp(cfg, answers, blocks) && CleanupAll(cfg, answers) == Concat(blocks)
  {
    if answers == [] {
      var none: seq<seq<Effect>> := [];
      assert CleanedUp(cfg, answers, none) && Concat(none) == [];
    } else {
      CleanupExactly(cfg, answers[1..]);
      var rest :| CleanedUp(cfg, answers[1..], rest) && CleanupAll(cfg, answers[1..]) == Concat(rest);
      CleanedCons(cfg, answers, if answers[0].Some? then CleanupOf(cfg, answers[0].value) else [], rest);
    }
  }

  lemma CleanedCons(cfg: Config, answers: seq<Option<Authz>>, first: seq<Effect>, rest: seq<seq<Effect>>)
    requires answers != [] && CleanedUp(cfg, answers[1..], rest)
    requires first == if answers[0].Some? && Cleanable(cfg, answers[0].value)
                      then [Cleanup(answers[0].value.challenge.value)] else []
    ensures CleanedUp(cfg, answers, [first] + rest) && Concat([first] + rest) == first + Concat(rest)
  {
    var blocks, tail := [first] + rest, answers[1..];
    assert blocks[1..] == rest;
    assert forall i :: 1 <= i < |answers| ==> answers[i] == tail[i - 1] && blocks[i] == rest[i - 1];
  }

  function CleanupAll(cfg: Config, answers: seq<Option<Authz>>): seq<Effect> {
    if answers == [] then []
    else
      var first := if answers[0].Some? then CleanupOf(cfg, answers[0].value) else [];
      first + CleanupAll(cfg, answers[1..])
  }

  function CompleteOrder(id: Id, certUrl: Option<string>, certId: Option<Id>): seq<Effect> {
    if certUrl.None? || certId.None? then [] else [Complete(id, certId.value, certUrl.value)]
  }

  function FinalizeUpstream(id: Id, row: OrderRow, a: Answers): seq<Effect> {
    if !row.hasCsr || a.finalize.None? then []
    else
      var f := a.finalize.value;
      [SubmitFinalize(id), RecordUrl(id, f.url)]
      + if f.valid then CompleteOrder(id, f.certificate, a.certId) else []
  }

  /** Step 1 of `drive_order`: place the upstream order unless one is recorded. */
  function Opening(id: Id, row: OrderRow, a: Answers): seq<Effect> {
    if row.upstreamOrderUrl.Some? || !row.identifiersOk || a.newOrder.None? then []
    else [Place(id), RecordUrl(id, a.newOrder.value)]
  }

  predicate Opened(row: OrderRow, a: Answers) {
    row.upstreamOrderUrl.Some? || (row.identifiersOk && a.newOrder.Some?)
  }

  function Body(cfg: Config, id: Id, row: OrderRow, a: Answers): seq<Effect> {
    if a.getOrder.None? then []
    else
      var o2 := a.getOrder.value;
      match o2.status
      case UpPending => Satisfy(cfg, o2.authz)
      case UpReady => CleanupAll(cfg, o2.authz) + FinalizeUpstream(id, row, a)
      case UpProcessing => []
      case UpValid => CompleteOrder(id, o2.certificate, a.certId)
      case UpInvalid => [MarkInvalid(id)]
      case UpOther => []
  }

  /** The effects of handling one listed order at time `now`, in order. */
  function DriveOrder(cfg: Config, id: Id, row: OrderRow, a: Answers, now: int): seq<Effect> {
    if row.expires.Some? && now > row.expires.value then [MarkInvalid(id)]
    else Opening(id, row, a) + if Opened(row, a) then Body(cfg, id, row, a) else []
  }

  // ------------------------------------------------------------- database

  /** Committed tables, and every effect that took place. */
  datatype World = World(orders: map<Id, OrderRow>, certs: seq<CertRow>, log: seq<Effect>)

  /** The guard of `set_valid_with_certificate` rolls the whole transaction back. */
  function Apply(w: World, e: Effect): World {
    var w' := w.(log := w.log + [e]);
    match e
    case RecordUrl(id, url) =>
      if id !in w.orders then w'
      else w'.(orders := w.orders[id := w.orders[id].(upstreamOrderUrl := Some(url))])
    case Complete(id, cert, url) =>
      if id !in w.orders || w.orders[id].status != Processing then w'
      else w'.(
        certs := w.certs + [CertRow(cert, id)],
        orders := w.orders[id := w.orders[id].(status := Valid, certificateId := Some(cert),
                                               upstreamCertUrl := Some(url))])
    case MarkInvalid(id) =>
      if id !in w.orders then w'
      else w'.(orders := w.orders[id := w.orders[id].(status := Invalid)])
    case _ => w'
  }

  function ApplyAll(w: World, es: seq<Effect>): World
    decreases |es|
  {
    if es == [] then w else ApplyAll(Apply(w, es[0]), es[1..])
  }

  /** The WHERE clause of `list_pending_delegation_orders`. */
  predicate Pending(row: OrderRow) {
    row.delegation && row.status == Processing && row.upstreamCertUrl.None?
  }

  /** One order handled in a pass, cut short after `cut` effects. */
  datatype Drive = Drive(id: Id, answers: Answers, now: int, cut: nat)

  function RunDrive(cfg: Config, w: World, d: Drive): World
    requires d.id in w.orders
  {
    ApplyAll(w, Take(DriveOrder(cfg, d.id, w.orders[d.id], d.answers, d.now), d.cut))
  }

  function RunDrives(cfg: Config, w: World, ds: seq<Drive>): World
    decreases |ds|
  {
    if ds == [] then w
    else if ds[0].id in w.orders && Pending(w.orders[ds[0].id])
    then RunDrives(cfg, RunDrive(cfg, w, ds[0]), ds[1..])
    else RunDrives(cfg, w, ds[1..])
  }

  // ---------------------------------------------------- the pass as a loop

  predicate Touches(e: Effect, id: Id) {
    match e
    case RecordUrl(i, _) => i == id
    case Complete(i, _, _) => i == id
    case MarkInvalid(i) => i == id
    case _ => false
  }

  ghost predicate OnlyTouches(es: seq<Effect>, id: Id) {
    forall k, other :: 0 <= k < |es| && Touches(es[k], other) ==> other == id
  }

  lemma {:induction false} ActsTouchNothing(cfg: Config, answers: seq<Option<Authz>>, id: Id)
    ensures OnlyTouches(Satisfy(cfg, answers), id) && OnlyTouches(CleanupAll(cfg, answers), id)
  {
    if answers != [] {
      ActsTouchNothing(cfg, answers[1..], id);
    }
  }

  lemma DriveTouchesOwn(cfg: Config, id: Id, row: OrderRow, a: Answers, now: int)
    ensures OnlyTouches(DriveOrder(cfg, id, row, a, now), id)
  {
    BodyTouchesOwn(cfg, id, row, a);
  }

  lemma BodyTouchesOwn(cfg: Config, id: Id, row: OrderRow, a: Answers)
    ensures OnlyTouches(Body(cfg, id, row, a), id)
  {
    if a.getOrder.Some? {
      ActsTouchNothing(cfg, a.getOrder.value.authz, id);
    }
  }

  lemma {:induction false} ApplyLeavesOthers(w: World, es: seq<Effect>, id: Id, other: Id)
    requires OnlyTouches(es, id) && other != id
    ensures ApplyAll(w, es).orders.Keys == w.orders.Keys
    ensures other in w.orders ==> ApplyAll(w, es).orders[other] == w.orders[other]
    ensures CertsOf(ApplyAll(w, es), other) == CertsOf(w, other)
    decreases |es|
  {
    if es != [] {
      assert Touches(es[0], other) ==> other == id;
      if es[0].Complete? {
        assert Touches(es[0], es[0].order);
        FilterAppend(w.certs, CertRow(es[0].cert, es[0].order), OfOrder(other));
      }
      ApplyLeavesOthers(Apply(w, es[0]), es[1..], id, other);
    }
  }

  lemma DriveLeavesOthers(cfg: Config, w: World, d: Drive, other: Id)
    requires d.id in w.orders && other != d.id
    ensures RunDrive(cfg, w, d).orders.Keys == w.orders.Keys
    ensures other in w.orders ==> RunDrive(cfg, w, d).orders[other] == w.orders[other]
    ensures CertsOf(RunDrive(cfg, w, d), other) == CertsOf(w, other)
  {
    var es := DriveOrder(cfg, d.id, w.orders[d.id], d.answers, d.now);
    DriveTouchesOwn(cfg, d.id, w.orders[d.id], d.answers, d.now);
    assert OnlyTouches(Take(es, d.cut), d.id) by {
      assert forall k :: 0 <= k < |Take(es, d.cut)| ==> Take(es, d.cut)[k] == es[k];
    }
    ApplyLeavesOthers(w, Take(es, d.cut), d.id, other);
  }

  class Driver {
    const cfg: Config
    var world: World

    constructor (cfg: Config, world: World)
      ensures this.cfg == cfg && this.world == world
    {
      this.cfg, this.world := cfg, world;
    }

    /**
     `run_once` works on the rows it listed at the start; with one driver that
     is as good as reading each row afresh.
     */
    method RunOnce(drives: seq<Drive>)
      requires forall k :: 0 <= k < |drives| ==>
        drives[k].id in world.orders && Pending(world.orders[drives[k].id])
      requires forall k, l :: 0 <= k < l < |drives| ==> drives[k].id != drives[l].id
      modifies this`world
      ensures world == RunDrives(cfg, old(world), drives)
    {
      var rows := world.orders;
      for i := 0 to |drives|
        invariant RunDrives(cfg, world, drives[i..]) == RunDrives(cfg, old(world), drives)
        invariant world.orders.Keys == rows.Keys
        invariant forall k :: i <= k < |drives| ==> world.orders[drives[k].id] == rows[drives[k].id]
      {
        var d := drives[i];
        var effects := DriveOrder(cfg, d.id, rows[d.id], d.answers, d.now);
        assert drives[i..][0] == d && drives[i..][1..] == drives[i + 1..];
        ghost var before := world;
        DriveLeavesOthers(cfg, before, d, d.id + "x");
        forall k | i < k < |drives|
          ensures RunDrive(cfg, before, d).orders[drives[k].id] == before.orders[drives[k].id]
        {
          DriveLeavesOthers(cfg, before, d, drives[k].id);
        }
        world := ApplyAll(world, Take(effects, d.cut));
      }
    }
  }

  // ----------------------------------------------- orders and certificates

  function OfOrder(id: Id): CertRow -> bool { (row: CertRow) => row.order == id }

  function CertsOf(w: World, id: Id): seq<CertRow> { Filter(w.certs, OfOrder(id)) }

  /** Valid exactly when one certificate row, its id and the upstream URL are stored, all together. */
  ghost predicate OrderInv(w: World, id: Id)
    requires id in w.orders
  {
    var row := w.orders[id];
    if row.status == Valid
    then row.certificateId.Some? && row.upstreamCertUrl.Some?
         && CertsOf(w, id) == [CertRow(row.certificateId.value, id)]
    else row.certificateId.None? && row.upstreamCertUrl.None? && CertsOf(w, id) == []
  }

  /** Of delegation orders only: an ordinary order is valid without an upstream URL. */
  ghost predicate Inv(w: World) {
    forall id :: id in w.orders && w.orders[id].delegation ==> OrderInv(w, id)
  }

  /** Only `MarkInvalid` could break the law, on an order that is already valid. */
  lemma EffectKeepsInv(w: World, e: Effect)
    requires Inv(w)
    requires e.MarkInvalid? && e.order in w.orders ==> w.orders[e.order].status != Valid
    ensures Inv(Apply(w, e))
  {
    var w' := Apply(w, e);
    forall id | id in w'.orders && w'.orders[id].delegation ensures OrderInv(w', id) {
      assert OrderInv(w, id);
      if e.Complete? {
        FilterAppend(w.certs, CertRow(e.cert, e.order), OfOrder(id));
      }
    }
  }

  predicate MarksNone(es: seq<Effect>) { forall k :: 0 <= k < |es| ==> !es[k].MarkInvalid? }

  lemma {:induction false} UnmarkedKeepsInv(w: World, es: seq<Effect>)
    requires Inv(w) && MarksNone(es)
    ensures Inv(ApplyAll(w, es))
    decreases |es|
  {
    if es != [] {
      EffectKeepsInv(w, es[0]);
      UnmarkedKeepsInv(Apply(w, es[0]), es[1..]);
    }
  }

  lemma {:induction false} ActsMarkNone(cfg: Config, answers: seq<Option<Authz>>)
    ensures MarksNone(Satisfy(cfg, answers)) && MarksNone(CleanupAll(cfg, answers))
  {
    if answers != [] {
      ActsMarkNone(cfg, answers[1..]);
    }
  }

  lemma ApplyTwo(w: World, a: Effect, b: Effect)
    ensures ApplyAll(w, [a]) == Apply(w, a)
    ensures ApplyAll(w, [a, b]) == Apply(Apply(w, a), b)
  {
    assert [a][1..] == [] && [a, b][1..] == [b] && [b][1..] == [];
    assert ApplyAll(Apply(w, a), [b]) == Apply(Apply(w, a), b);
  }

  lemma {:induction false} ApplyConcat(w: World, a: seq<Effect>, b: seq<Effect>)
    ensures ApplyAll(w, a + b) == ApplyAll(ApplyAll(w, a), b)
    decreases |a|
  {
    if a == [] {
      assert a + b == b;
    } else {
      assert (a + b)[1..] == a[1..] + b;
      ApplyConcat(Apply(w, a[0]), a[1..], b);
    }
  }

  /** A marking drive has done nothing to the order but open it. */
  lemma MarkedDrive(cfg: Config, id: Id, row: OrderRow, a: Answers, now: int)
    requires !MarksNone(DriveOrder(cfg, id, row, a, now))
    ensures var es := DriveOrder(cfg, id, row, a, now);
      es == [MarkInvalid(id)] || es == Opening(id, row, a) + [MarkInvalid(id)]
  {
    BodyMarks(cfg, id, row, a);
    assert Opening(id, row, a) + [] == Opening(id, row, a);
  }

  lemma BodyMarks(cfg: Config, id: Id, row: OrderRow, a: Answers)
    ensures MarksNone(Body(cfg, id, row, a)) || Body(cfg, id, row, a) == [MarkInvalid(id)]
  {
    if a.getOrder.Some? {
      ActsMarkNone(cfg, a.getOrder.value.authz);
    }
  }

  lemma OpeningKeepsStatus(w: World, id: Id, a: Answers)
    requires id in w.orders
    ensures var w' := ApplyAll(w, Opening(id, w.orders[id], a));
      id in w'.orders && w'.orders[id].status == w.orders[id].status
  {
    if a.newOrder.Some? {
      ApplyTwo(w, Place(id), RecordUrl(id, a.newOrder.value));
    }
  }

  lemma DriveKeepsInv(cfg: Config, w: World, d: Drive)
    requires Inv(w) && d.id in w.orders && Pending(w.orders[d.id])
    ensures Inv(RunDrive(cfg, w, d))
  {
    var row := w.orders[d.id];
    var es := DriveOrder(cfg, d.id, row, d.answers, d.now);
    var cut := Take(es, d.cut);
    if MarksNone(es) {
      UnmarkedKeepsInv(w, cut);
    } else {
      MarkedDrive(cfg, d.id, row, d.answers, d.now);
      if cut == es {
        var front := es[..|es| - 1];
        assert es == front + [MarkInvalid(d.id)];
        assert front == [] || front == Opening(d.id, row, d.answers);
        ApplyConcat(w, front, [MarkInvalid(d.id)]);
        UnmarkedKeepsInv(w, front);
        OpeningKeepsStatus(w, d.id, d.answers);
        ApplyTwo(ApplyAll(w, front), MarkInvalid(d.id), MarkInvalid(d.id));
        EffectKeepsInv(ApplyAll(w, front), MarkInvalid(d.id));
      } else {
        UnmarkedKeepsInv(w, cut);
      }
    }
  }

  /**
   In every run of the driver, under any upstream answers and cut short
   anywhere, a delegation order is valid exactly when its certificate row and
   upstream certificate URL are stored, and never has a second certificate.
   */
  lemma {:induction false} RunKeepsInv(cfg: Config, w: World, ds: seq<Drive>)
    requires Inv(w)
    ensures Inv(RunDrives(cfg, w, ds))
    decreases |ds|
  {
    if ds != [] {
      if ds[0].id in w.orders && Pending(w.orders[ds[0].id]) {
        DriveKeepsInv(cfg, w, ds[0]);
        RunKeepsInv(cfg, RunDrive(cfg, w, ds[0]), ds[1..]);
      } else {
        RunKeepsInv(cfg, w, ds[1..]);
      }
    }
  }

  /**
   No run changes an order that is not pending, or its certificates: an ordinary
   order, a finished one, or one whose certificate URL is already stored.
   */
  lemma {:induction false} RunLeavesSettled(cfg: Config, w: World, ds: seq<Drive>, id: Id)
    requires id in w.orders && !Pending(w.orders[id])
    ensures var w' := RunDrives(cfg, w, ds);
      id in w'.orders && w'.orders[id] == w.orders[id] && CertsOf(w', id) == CertsOf(w, id)
    decreases |ds|
  {
    if ds != [] {
      if ds[0].id in w.orders && Pending(w.orders[ds[0].id]) {
        DriveLeavesOthers(cfg, w, ds[0], id);
        RunLeavesSettled(cfg, RunDrive(cfg, w, ds[0]), ds[1..], id);
      } else {
        RunLeavesSettled(cfg, w, ds[1..], id);
      }
    }
  }

  /** In particular no run touches an order that is not a delegation order. */
  lemma RunLeavesOrdinary(cfg: Config, w: World, ds: seq<Drive>, id: Id)
    requires id in w.orders && !w.orders[id].delegation
    ensures var w' := RunDrives(cfg, w, ds);
      id in w'.orders && w'.orders[id] == w.orders[id] && CertsOf(w', id) == CertsOf(w, id)
  {
    RunLeavesSettled(cfg, w, ds, id);
  }

  /** What the periodic gossip persist writes over an order: the status and certificate id it knows. */
  function Overwrite(w: World, id: Id, status: Status, certificateId: Option<Id>): World
    requires id in w.orders
  {
    w.(orders := w.orders[id := w.orders[id].(status := status, certificateId := certificateId)])
  }

  /** An overwrite keeps the law exactly when it writes back the same certificate and agrees on validity. */
  lemma OverwriteExactly(w: World, id: Id, status: Status, certificateId: Option<Id>)
    requires Inv(w) && id in w.orders && w.orders[id].delegation
    ensures Inv(Overwrite(w, id, status, certificateId)) <==>
      certificateId == w.orders[id].certificateId && (status == Valid <==> w.orders[id].status == Valid)
  {
    var w' := Overwrite(w, id, status, certificateId);
    assert OrderInv(w, id);
    assert w'.orders[id].delegation;
    if certificateId == w.orders[id].certificateId && (status == Valid <==> w.orders[id].status == Valid) {
      forall k | k in w'.orders && w'.orders[k].delegation ensures OrderInv(w', k) {
        assert OrderInv(w, k);
      }
    } else {
      assert !OrderInv(w', id);
    }
  }

  /** A valid order put back to processing stays so in every run: its certificate URL keeps it from being listed. */
  lemma PutBackIsStuck(cfg: Config, w: World, ds: seq<Drive>, id: Id)
    requires Inv(w) && id in w.orders && w.orders[id].delegation && w.orders[id].status == Valid
    ensures var back := Overwrite(w, id, Processing, None);
      var w' := RunDrives(cfg, back, ds);
      id in w'.orders && w'.orders[id] == back.orders[id] && !Inv(back)
  {
    OverwriteExactly(w, id, Processing, None);
    assert OrderInv(w, id);
    RunLeavesSettled(cfg, Overwrite(w, id, Processing, None), ds, id);
  }

  // ------------------------------------------------------ upstream orders

  function Placed(es: seq<Effect>, id: Id): nat {
    if es == [] then 0 else (if es[0] == Place(id) then 1 else 0) + Placed(es[1..], id)
  }

  lemma {:induction false} PlacedConcat(a: seq<Effect>, b: seq<Effect>, id: Id)
    ensures Placed(a + b, id) == Placed(a, id) + Placed(b, id)
  {
    if a == [] {
      assert a + b == b;
    } else {
      assert (a + b)[1..] == a[1..] + b;
      PlacedConcat(a[1..], b, id);
    }
  }

  lemma {:induction false} ApplyLogs(w: World, es: seq<Effect>)
    ensures ApplyAll(w, es).log == w.log + es
    decreases |es|
  {
    if es != [] {
      ApplyLogs(Apply(w, es[0]), es[1..]);
      assert es == [es[0]] + es[1..];
    } else {
      assert w.log + [] == w.log;
    }
  }

  /** A recorded URL may be replaced but is never forgotten. */
  lemma {:induction false} UrlStays(w: World, es: seq<Effect>, id: Id)
    requires id in w.orders && w.orders[id].upstreamOrderUrl.Some?
    ensures id in ApplyAll(w, es).orders && ApplyAll(w, es).orders[id].upstreamOrderUrl.Some?
    decreases |es|
  {
    if es != [] {
      UrlStays(Apply(w, es[0]), es[1..], id);
    }
  }

  predicate PlacesNone(es: seq<Effect>) { forall k :: 0 <= k < |es| ==> !es[k].Place? }

  lemma {:induction false} PlacesNoneCount(es: seq<Effect>, id: Id)
    requires PlacesNone(es)
    ensures Placed(es, id) == 0
  {
    if es != [] {
      PlacesNoneCount(es[1..], id);
    }
  }

  lemma {:induction false} ActsPlaceNone(cfg: Config, answers: seq<Option<Authz>>)
    ensures PlacesNone(Satisfy(cfg, answers)) && PlacesNone(CleanupAll(cfg, answers))
  {
    if answers != [] {
      ActsPlaceNone(cfg, answers[1..]);
    }
  }

  /** Whether a drive places an upstream order. */
  predicate Places(row: OrderRow, a: Answers, now: int) {
    !Expired(row, now) && row.upstreamOrderUrl.None? && row.identifiersOk && a.newOrder.Some?
  }

  lemma DrivePlaces(cfg: Config, id: Id, row: OrderRow, a: Answers, now: int)
    ensures var es := DriveOrder(cfg, id, row, a, now);
      if Places(row, a, now)
      then |es| >= 2 && es[0] == Place(id) && es[1].RecordUrl? && es[1].order == id && PlacesNone(es[1..])
      else PlacesNone(es) && (row.upstreamOrderUrl.None? ==> es == [] || es == [MarkInvalid(id)])
  {
    BodyPlacesNone(cfg, id, row, a);
  }

  lemma BodyPlacesNone(cfg: Config, id: Id, row: OrderRow, a: Answers)
    ensures PlacesNone(Body(cfg, id, row, a))
  {
    if a.getOrder.Some? {
      ActsPlaceNone(cfg, a.getOrder.value.authz);
    }
  }

  /** A drive that places an upstream order and is cut before it records the URL. */
  predicate LosesUrl(w: World, d: Drive, id: Id)
    requires d.id in w.orders
  {
    d.id == id && d.cut == 1 && Places(w.orders[id], d.answers, d.now)
  }

  /** Drives of an order cut between placing the upstream order and recording its URL. */
  ghost function Lost(cfg: Config, w: World, ds: seq<Drive>, id: Id): nat
    decreases |ds|
  {
    if ds == [] then 0
    else if ds[0].id in w.orders && Pending(w.orders[ds[0].id])
    then
      (if LosesUrl(w, ds[0], id) then 1 else 0) + Lost(cfg, RunDrive(cfg, w, ds[0]), ds[1..], id)
    else Lost(cfg, w, ds[1..], id)
  }

  function HasUrl(w: World, id: Id): nat
    requires id in w.orders
  {
    if w.orders[id].upstreamOrderUrl.Some? then 1 else 0
  }

  /** One drive places an upstream order only without a URL, and then records it unless cut right there. */
  lemma DriveAccounts(cfg: Config, w: World, d: Drive, id: Id)
    requires d.id in w.orders && id in w.orders
    ensures var w' := RunDrive(cfg, w, d);
      id in w'.orders
      && Placed(w'.log, id) + HasUrl(w, id)
         == Placed(w.log, id) + HasUrl(w', id) + (if LosesUrl(w, d, id) then 1 else 0)
  {
    var es := DriveOrder(cfg, d.id, w.orders[d.id], d.answers, d.now);
    var cut := Take(es, d.cut);
    ApplyLogs(w, cut);
    PlacedConcat(w.log, cut, id);
    DrivePlaces(cfg, d.id, w.orders[d.id], d.answers, d.now);
    if w.orders[id].upstreamOrderUrl.Some? {
      UrlStays(w, cut, id);
    }
    if d.id != id {
      DriveLeavesOthers(cfg, w, d, id);
      OthersPlaceNone(es, d.id, id, d.cut);
    } else {
      DriveLeavesOthers(cfg, w, d, id + "x");
      if !Places(w.orders[id], d.answers, d.now) {
        PlacesNoneCount(cut, id);
        assert w.orders[id].upstreamOrderUrl.None? ==> cut == [] || cut == [MarkInvalid(id)];
        ApplyTwo(w, MarkInvalid(id), MarkInvalid(id));
      } else {
        OpenedAccounts(w, es, d.cut, id);
      }
    }
  }

  lemma OthersPlaceNone(es: seq<Effect>, own: Id, id: Id, cut: nat)
    requires own != id
    requires PlacesNone(es) || (|es| >= 2 && es[0] == Place(own) && PlacesNone(es[1..]))
    ensures Placed(Take(es, cut), id) == 0
  {
    var c := Take(es, cut);
    if c != [] {
      PlacesNoneCount(c[1..], id);
    }
  }

  lemma OpenedAccounts(w: World, es: seq<Effect>, cut: nat, id: Id)
    requires id in w.orders && |es| >= 2 && es[0] == Place(id) && PlacesNone(es[1..])
    requires es[1].RecordUrl? && es[1].order == id
    ensures Placed(Take(es, cut), id) == if cut == 0 then 0 else 1
    ensures var w' := ApplyAll(w, Take(es, cut));
      id in w'.orders
      && (cut >= 2 ==> w'.orders[id].upstreamOrderUrl.Some?)
      && (cut < 2 ==> w'.orders == w.orders)
  {
    var c := Take(es, cut);
    if cut > 0 {
      PlacesNoneCount(c[1..], id);
    }
    if cut == 1 {
      assert c == [es[0]];
      ApplyTwo(w, es[0], es[0]);
    }
    if cut >= 2 {
      var w2 := Apply(Apply(w, c[0]), c[1]);
      assert ApplyAll(w, c) == ApplyAll(w2, c[1..][1..]);
      UrlStays(w2, c[1..][1..], id);
    }
  }

  /**
   Over a whole run the upstream orders placed for an order are accounted for
   exactly: one for the URL on record, and one for each drive cut between
   placing it and recording its URL.
   */
  lemma {:induction false} PlacedAccounts(cfg: Config, w: World, ds: seq<Drive>, id: Id)
    requires id in w.orders
    ensures var w' := RunDrives(cfg, w, ds);
      id in w'.orders
      && Placed(w'.log, id) + HasUrl(w, id) == Placed(w.log, id) + HasUrl(w', id) + Lost(cfg, w, ds, id)
    decreases |ds|
  {
    if ds != [] {
      if ds[0].id in w.orders && Pending(w.orders[ds[0].id]) {
        DriveAccounts(cfg, w, ds[0], id);
        PlacedAccounts(cfg, RunDrive(cfg, w, ds[0]), ds[1..], id);
      } else {
        PlacedAccounts(cfg, w, ds[1..], id);
      }
    }
  }

  /** Once a URL is recorded, no upstream order is placed for that order again. */
  lemma {:induction false} NoSecondOrder(cfg: Config, w: World, ds: seq<Drive>, id: Id)
    requires id in w.orders && w.orders[id].upstreamOrderUrl.Some?
    ensures Placed(RunDrives(cfg, w, ds).log, id) == Placed(w.log, id)
    decreases |ds|
  {
    if ds != [] {
      var d := ds[0];
      if d.id in w.orders && Pending(w.orders[d.id]) {
        var es := DriveOrder(cfg, d.id, w.orders[d.id], d.answers, d.now);
        DrivePlaces(cfg, d.id, w.orders[d.id], d.answers, d.now);
        DriveAccounts(cfg, w, d, id);
        UrlStays(w, Take(es, d.cut), id);
        if d.id == id {
          PlacesNoneCount(Take(es, d.cut), id);
          ApplyLogs(w, Take(es, d.cut));
          PlacedConcat(w.log, Take(es, d.cut), id);
        }
        NoSecondOrder(cfg, RunDrive(cfg, w, d), ds[1..], id);
      } else {
        NoSecondOrder(cfg, w, ds[1..], id);
      }
    }
  }

  // ------------------------------------------------------------ challenges

  /** Every trigger comes right after the deployment of the same challenge. */
  ghost predicate DeployedFirst(es: seq<Effect>) {
    forall k :: 0 <= k < |es| && es[k].Trigger? ==> k > 0 && es[k - 1] == Deploy(es[k].challenge)
  }

  lemma DeployedConcat(a: seq<Effect>, b: seq<Effect>)
    requires DeployedFirst(a) && DeployedFirst(b)
    ensures DeployedFirst(a + b)
  {
    var c := a + b;
    forall k | 0 <= k < |c| && c[k].Trigger? ensures k > 0 && c[k - 1] == Deploy(c[k].challenge) {
      if k >= |a| {
        assert b[k - |a|] == c[k];
        assert c[k - 1] == b[k - |a| - 1];
      }
    }
  }

  lemma {:induction false} SatisfyDeploysFirst(cfg: Config, answers: seq<Option<Authz>>)
    ensures DeployedFirst(Satisfy(cfg, answers)) && DeployedFirst(CleanupAll(cfg, answers))
  {
    if answers != [] {
      SatisfyDeploysFirst(cfg, answers[1..]);
      var (effects, go) := SatisfyOne(cfg, answers[0]);
      assert DeployedFirst(effects);
      DeployedConcat(effects, if go then Satisfy(cfg, answers[1..]) else []);
      var first := if answers[0].Some? then CleanupOf(cfg, answers[0].value) else [];
      DeployedConcat(first, CleanupAll(cfg, answers[1..]));
    }
  }

  lemma DriveDeploysFirst(cfg: Config, id: Id, row: OrderRow, a: Answers, now: int)
    ensures DeployedFirst(DriveOrder(cfg, id, row, a, now))
  {
    BodyDeploysFirst(cfg, id, row, a);
    DeployedConcat(Opening(id, row, a), if Opened(row, a) then Body(cfg, id, row, a) else []);
  }

  lemma BodyDeploysFirst(cfg: Config, id: Id, row: OrderRow, a: Answers)
    ensures DeployedFirst(Body(cfg, id, row, a))
  {
    if a.getOrder.Some? {
      SatisfyDeploysFirst(cfg, a.getOrder.value.authz);
      DeployedConcat(CleanupAll(cfg, a.getOrder.value.authz), FinalizeUpstream(id, row, a));
    }
  }

  /** In every run, cut short anywhere, each challenge is deployed before it is triggered. */
  lemma {:induction false} RunDeploysFirst(cfg: Config, w: World, ds: seq<Drive>)
    requires DeployedFirst(w.log)
    ensures DeployedFirst(RunDrives(cfg, w, ds).log)
    decreases |ds|
  {
    if ds != [] {
      var d := ds[0];
      if d.id in w.orders && Pending(w.orders[d.id]) {
        var es := DriveOrder(cfg, d.id, w.orders[d.id], d.answers, d.now);
        DriveDeploysFirst(cfg, d.id, w.orders[d.id], d.answers, d.now);
        ApplyLogs(w, Take(es, d.cut));
        DeployedConcat(w.log, Take(es, d.cut));
        RunDeploysFirst(cfg, RunDrive(cfg, w, d), ds[1..]);
      } else {
        RunDeploysFirst(cfg, w, ds[1..]);
      }
    }
  }

  // ------------------------------------------------------------- outcomes

  predicate Expired(row: OrderRow, now: int) { row.expires.Some? && now > row.expires.value }

  predicate Downloaded(certUrl: Option<string>, a: Answers) { certUrl.Some? && a.certId.Some? }

  /** Upstream has issued, at once or on finalization, and the certificate came down. */
  predicate Fulfilled(row: OrderRow, a: Answers) {
    a.getOrder.Some?
    && ((a.getOrder.value.status == UpValid && Downloaded(a.getOrder.value.certificate, a))
        || (a.getOrder.value.status == UpReady && row.hasCsr && a.finalize.Some? && a.finalize.value.valid
            && Downloaded(a.finalize.value.certificate, a)))
  }

  /** Where the certificate of a fulfilled order is offered. */
  function CertUrl(a: Answers): Option<string>
    requires a.getOrder.Some?
  {
    if a.getOrder.value.status == UpValid then a.getOrder.value.certificate
    else if a.finalize.Some? then a.finalize.value.certificate
    else None
  }

  predicate Refused(a: Answers) { a.getOrder.Some? && a.getOrder.value.status == UpInvalid }

  predicate Inert(e: Effect) { !e.RecordUrl? && !e.Complete? && !e.MarkInvalid? }

  lemma {:induction false} ActsInert(cfg: Config, answers: seq<Option<Authz>>)
    ensures forall k :: 0 <= k < |Satisfy(cfg, answers)| ==> Inert(Satisfy(cfg, answers)[k])
    ensures forall k :: 0 <= k < |CleanupAll(cfg, answers)| ==> Inert(CleanupAll(cfg, answers)[k])
  {
    if answers != [] {
      ActsInert(cfg, answers[1..]);
    }
  }

  lemma {:induction false} InertKeepsOrders(w: World, es: seq<Effect>)
    requires forall k :: 0 <= k < |es| ==> Inert(es[k])
    ensures ApplyAll(w, es).orders == w.orders
    decreases |es|
  {
    if es != [] {
      InertKeepsOrders(Apply(w, es[0]), es[1..]);
    }
  }

  /** The order carries the certificate that came down and the URL it came from. */
  predicate Carries(w: World, id: Id, certUrl: Option<string>, a: Answers) {
    id in w.orders && w.orders[id].certificateId == a.certId && w.orders[id].upstreamCertUrl == certUrl
  }

  lemma CompleteOutcome(w: World, id: Id, certUrl: Option<string>, a: Answers)
    requires id in w.orders && w.orders[id].status == Processing
    ensures var w' := ApplyAll(w, CompleteOrder(id, certUrl, a.certId));
      id in w'.orders && w'.orders[id].status == (if Downloaded(certUrl, a) then Valid else Processing)
      && (Downloaded(certUrl, a) ==> Carries(w', id, certUrl, a))
  {
    if Downloaded(certUrl, a) {
      var e := Complete(id, a.certId.value, certUrl.value);
      ApplyTwo(w, e, e);
    }
  }

  lemma FinalizeOutcome(w: World, id: Id, row: OrderRow, a: Answers)
    requires id in w.orders && w.orders[id].status == Processing
    ensures var w' := ApplyAll(w, FinalizeUpstream(id, row, a));
      id in w'.orders
      && (w'.orders[id].status == if row.hasCsr && a.finalize.Some? && a.finalize.value.valid
                                     && Downloaded(a.finalize.value.certificate, a) then Valid else Processing)
      && (w'.orders[id].status == Valid ==> Carries(w', id, a.finalize.value.certificate, a))
  {
    if row.hasCsr && a.finalize.Some? {
      var f := a.finalize.value;
      var front := [SubmitFinalize(id), RecordUrl(id, f.url)];
      var rest := if f.valid then CompleteOrder(id, f.certificate, a.certId) else [];
      ApplyTwo(w, SubmitFinalize(id), RecordUrl(id, f.url));
      ApplyConcat(w, front, rest);
      CompleteOutcome(ApplyAll(w, front), id, f.certificate, a);
    }
  }

  lemma BodyOutcome(cfg: Config, w: World, id: Id, row: OrderRow, a: Answers)
    requires id in w.orders && w.orders[id].status == Processing
    ensures var w' := ApplyAll(w, Body(cfg, id, row, a));
      id in w'.orders
      && w'.orders[id].status == (if Fulfilled(row, a) then Valid else if Refused(a) then Invalid else Processing)
      && (Fulfilled(row, a) ==> Carries(w', id, CertUrl(a), a))
  {
    if a.getOrder.Some? {
      var o2 := a.getOrder.value;
      ActsInert(cfg, o2.authz);
      match o2.status
      case UpPending => InertKeepsOrders(w, Satisfy(cfg, o2.authz));
      case UpReady =>
        InertKeepsOrders(w, CleanupAll(cfg, o2.authz));
        ApplyConcat(w, CleanupAll(cfg, o2.authz), FinalizeUpstream(id, row, a));
        FinalizeOutcome(ApplyAll(w, CleanupAll(cfg, o2.authz)), id, row, a);
      case UpValid => CompleteOutcome(w, id, o2.certificate, a);
      case UpInvalid => ApplyTwo(w, MarkInvalid(id), MarkInvalid(id));
      case _ =>
    }
  }

  /**
   An undisturbed drive of a pending order makes it valid exactly when it has
   not expired, is open upstream and the certificate was obtained; invalid
   exactly when it expired or upstream refused it; otherwise it stays pending.
   */
  lemma DriveOutcome(cfg: Config, w: World, d: Drive)
    requires d.id in w.orders && Pending(w.orders[d.id])
    requires d.cut >= |DriveOrder(cfg, d.id, w.orders[d.id], d.answers, d.now)|
    ensures var row, a, w' := w.orders[d.id], d.answers, RunDrive(cfg, w, d);
      d.id in w'.orders
      && (w'.orders[d.id].status == Valid <==> !Expired(row, d.now) && Opened(row, a) && Fulfilled(row, a))
      && (w'.orders[d.id].status == Invalid <==> Expired(row, d.now) || (Opened(row, a) && Refused(a)))
      && w'.orders[d.id].status != Other
      && (w'.orders[d.id].status == Valid ==> a.getOrder.Some? && Carries(w', d.id, CertUrl(a), a))
  {
    var row, a := w.orders[d.id], d.answers;
    var es := DriveOrder(cfg, d.id, row, a, d.now);
    assert Take(es, d.cut) == es;
    if Expired(row, d.now) {
      ApplyTwo(w, MarkInvalid(d.id), MarkInvalid(d.id));
    } else {
      var rest := if Opened(row, a) then Body(cfg, d.id, row, a) else [];
      var placed := ApplyAll(w, Opening(d.id, row, a));
      ApplyConcat(w, Opening(d.id, row, a), rest);
      OpeningKeepsStatus(w, d.id, a);
      if Opened(row, a) {
        BodyOutcome(cfg, placed, d.id, row, a);
      }
    }
  }

  /** What is to be cleaned up for an authorization has been by the time finalization is submitted. */
  lemma {:induction false} AllCleaned(cfg: Config, answers: seq<Option<Authz>>, i: nat)
    requires i < |answers| && answers[i].Some? && Cleanable(cfg, answers[i].value)
    ensures Cleanup(answers[i].value.challenge.value) in CleanupAll(cfg, answers)
  {
    if i > 0 {
      AllCleaned(cfg, answers[1..], i - 1);
    }
  }

  lemma CleanedBeforeFinalize(cfg: Config, id: Id, row: OrderRow, a: Answers, now: int, k: nat, i: nat)
    requires var es := DriveOrder(cfg, id, row, a, now); k < |es| && es[k] == SubmitFinalize(id)
    requires a.getOrder.Some? && i < |a.getOrder.value.authz| && a.getOrder.value.authz[i].Some?
    requires Cleanable(cfg, a.getOrder.value.authz[i].value)
    ensures Cleanup(a.getOrder.value.authz[i].value.challenge.value) in DriveOrder(cfg, id, row, a, now)[..k]
  {
    var answers := a.getOrder.value.authz;
    var opening, cleanup := Opening(id, row, a), CleanupAll(cfg, answers);
    SubmitsOnlyWhenReady(cfg, id, row, a);
    CleanupSubmitsNone(cfg, answers);
    AllCleaned(cfg, answers, i);
    var es := DriveOrder(cfg, id, row, a, now);
    assert es == opening + (cleanup + FinalizeUpstream(id, row, a));
    CleanupsFirst(opening, cleanup, FinalizeUpstream(id, row, a), es, k, Cleanup(answers[i].value.challenge.value));
  }

  lemma CleanupsFirst(a: seq<Effect>, b: seq<Effect>, c: seq<Effect>, es: seq<Effect>, k: nat, e: Effect)
    requires es == a + (b + c) && k < |es| && es[k].SubmitFinalize? && e in b
    requires forall j :: 0 <= j < |a| ==> !a[j].SubmitFinalize?
    requires forall j :: 0 <= j < |b| ==> !b[j].SubmitFinalize?
    ensures e in es[..k]
  {
    var j :| 0 <= j < |b| && b[j] == e;
    assert k >= |a| + |b|;
    assert es[..k][|a| + j] == e;
  }

  lemma {:induction false} CleanupSubmitsNone(cfg: Config, answers: seq<Option<Authz>>)
    ensures forall k :: 0 <= k < |CleanupAll(cfg, answers)| ==> CleanupAll(cfg, answers)[k].Cleanup?
    ensures forall k :: 0 <= k < |Satisfy(cfg, answers)| ==> !Satisfy(cfg, answers)[k].SubmitFinalize?
  {
    if answers != [] {
      CleanupSubmitsNone(cfg, answers[1..]);
    }
  }

  lemma SubmitsOnlyWhenReady(cfg: Config, id: Id, row: OrderRow, a: Answers)
    ensures (exists k :: 0 <= k < |Body(cfg, id, row, a)| && Body(cfg, id, row, a)[k].SubmitFinalize?) ==>
      a.getOrder.Some? && a.getOrder.value.status == UpReady
  {
    if a.getOrder.Some? {
      CleanupSubmitsNone(cfg, a.getOrder.value.authz);
    }
  }

  // ------------------------------------------------------- the URL on record

  /** The URL of the last record written for an order. */
  function LastUrl(es: seq<Effect>, id: Id): Option<string> {
    if es == [] then None
    else
      var e := es[|es| - 1];
      if e.RecordUrl? && e.order == id then Some(e.url) else LastUrl(es[..|es| - 1], id)
  }

  /** The URL on record is the one written last, or the one there was. */
  ghost predicate UrlOk(w: World, id: Id, before: Option<string>)
    requires id in w.orders
  {
    w.orders[id].upstreamOrderUrl == if LastUrl(w.log, id).Some? then LastUrl(w.log, id) else before
  }

  lemma {:induction false} UrlFollows(w: World, es: seq<Effect>, id: Id, before: Option<string>)
    requires id in w.orders && UrlOk(w, id, before)
    ensures id in ApplyAll(w, es).orders && UrlOk(ApplyAll(w, es), id, before)
    decreases |es|
  {
    if es != [] {
      assert (w.log + [es[0]])[..|w.log|] == w.log;
      UrlFollows(Apply(w, es[0]), es[1..], id, before);
    }
  }

  /** In every run the URL on record is the last one written to the log. */
  lemma {:induction false} RunUrlFollows(cfg: Config, w: World, ds: seq<Drive>, id: Id, before: Option<string>)
    requires id in w.orders && UrlOk(w, id, before)
    ensures id in RunDrives(cfg, w, ds).orders && UrlOk(RunDrives(cfg, w, ds), id, before)
    decreases |ds|
  {
    if ds != [] {
      var d := ds[0];
      if d.id in w.orders && Pending(w.orders[d.id]) {
        var es := DriveOrder(cfg, d.id, w.orders[d.id], d.answers, d.now);
        UrlFollows(w, Take(es, d.cut), id, before);
        RunUrlFollows(cfg, RunDrive(cfg, w, d), ds[1..], id, before);
      } else {
        RunUrlFollows(cfg, w, ds[1..], id, before);
      }
    }
  }

  /** Every record follows a placed or a finalized order directly, with the URL that call answered. */
  ghost predicate Answered(es: seq<Effect>, id: Id, a: Answers) {
    forall k :: 0 <= k < |es| && es[k].RecordUrl? ==>
      k > 0 && es[k].order == id
      && ((es[k - 1] == Place(id) && a.newOrder == Some(es[k].url))
          || (es[k - 1] == SubmitFinalize(id) && a.finalize.Some? && a.finalize.value.url == es[k].url))
  }

  lemma AnsweredConcat(x: seq<Effect>, y: seq<Effect>, id: Id, a: Answers)
    requires Answered(x, id, a) && Answered(y, id, a)
    ensures Answered(x + y, id, a)
  {
    var c := x + y;
    forall k | 0 <= k < |c| && c[k].RecordUrl?
      ensures k > 0 && c[k].order == id
      ensures (c[k - 1] == Place(id) && a.newOrder == Some(c[k].url))
        || (c[k - 1] == SubmitFinalize(id) && a.finalize.Some? && a.finalize.value.url == c[k].url)
    {
      if k < |x| {
        assert c[k] == x[k] && x[k].RecordUrl?;
        assert c[k - 1] == x[k - 1];
      } else {
        assert c[k] == y[k - |x|] && y[k - |x|].RecordUrl?;
        assert c[k - 1] == y[k - |x| - 1];
      }
    }
  }

  lemma DriveRecordsAnswers(cfg: Config, id: Id, row: OrderRow, a: Answers, now: int)
    ensures Answered(DriveOrder(cfg, id, row, a, now), id, a)
  {
    BodyRecordsAnswers(cfg, id, row, a);
    AnsweredConcat(Opening(id, row, a), if Opened(row, a) then Body(cfg, id, row, a) else [], id, a);
  }

  lemma BodyRecordsAnswers(cfg: Config, id: Id, row: OrderRow, a: Answers)
    ensures Answered(Body(cfg, id, row, a), id, a)
  {
    if a.getOrder.Some? {
      ActsInert(cfg, a.getOrder.value.authz);
      AnsweredConcat(CleanupAll(cfg, a.getOrder.value.authz), FinalizeUpstream(id, row, a), id, a);
    }
  }

  /** A drive of an open order that is pending upstream ends with the effects of its authorizations. */
  lemma PendingDriveAnswers(cfg: Config, id: Id, row: OrderRow, a: Answers, now: int)
    requires !Expired(row, now) && Opened(row, a)
    requires a.getOrder.Some? && a.getOrder.value.status == UpPending
    ensures exists blocks ::
      Worked(cfg, a.getOrder.value.authz, blocks)
      && DriveOrder(cfg, id, row, a, now) == Opening(id, row, a) + Concat(blocks)
  {
    SatisfyExactly(cfg, a.getOrder.value.authz);
  }

  /** A drive of an open order that is ready upstream submits its CSR after the cleanups and records the answer. */
  lemma ReadyDriveFinalizes(cfg: Config, id: Id, row: OrderRow, a: Answers, now: int)
    requires !Expired(row, now) && Opened(row, a) && row.hasCsr && a.finalize.Some?
    requires a.getOrder.Some? && a.getOrder.value.status == UpReady
    ensures exists blocks ::
      CleanedUp(cfg, a.getOrder.value.authz, blocks)
      && Opening(id, row, a) + Concat(blocks) + [SubmitFinalize(id), RecordUrl(id, a.finalize.value.url)]
         <= DriveOrder(cfg, id, row, a, now)
  {
    CleanupExactly(cfg, a.getOrder.value.authz);
    var blocks :| CleanedUp(cfg, a.getOrder.value.authz, blocks)
      && CleanupAll(cfg, a.getOrder.value.authz) == Concat(blocks);
    var front := [SubmitFinalize(id), RecordUrl(id, a.finalize.value.url)];
    var final := FinalizeUpstream(id, row, a);
    assert front == final[..2];
    assert DriveOrder(cfg, id, row, a, now) == Opening(id, row, a) + (Concat(blocks) + final);
    PrefixThrough(Opening(id, row, a), Concat(blocks), final);
  }

  lemma PrefixThrough(a: seq<Effect>, b: seq<Effect>, c: seq<Effect>)
    requires |c| >= 2
    ensures a + b + c[..2] <= a + (b + c)
  {
    assert a + (b + c) == a + b + c[..2] + c[2..];
  }
}
