/**
 STAR renewal: the validity resolver of src/ca/issue.rs and the reissuance
 pass of src/star.rs, over whole runs of passes (section 3.1.1 of RFC 8739).
 Times are Unix seconds; both clock readings of a reissue are inputs.
 */
module Star {
  import opened Common

  const SKEW_SECS: int := 300
  const DAY_SECS: int := 86400
  const I64_MAX: int := 0x7FFF_FFFF_FFFF_FFFF

  type Id = string

  datatype Cert = Cert(notBefore: int, notAfter: int)

  /** `active` stands for the WHERE clause of `list_active_star` besides the end date. */
  datatype Order = Order(active: bool, endDate: Option<int>, hasCsr: bool,
                         lifetime: Option<int>, adjust: int)

  function Min(a: int, b: int): int { if a <= b then a else b }

  function Max(a: int, b: int): int { if a >= b then a else b }

  // ------------------------------------------------- src/ca/issue.rs

  function ResolveClampedValidity(now: int, notBefore: Option<int>, notAfter: Option<int>,
                                  validityDays: nat): (w: Cert)
    ensures w.notBefore >= now - SKEW_SECS
    ensures validityDays >= 1 ==> w.notBefore < w.notAfter
    ensures notBefore.Some? && notBefore.value >= now - SKEW_SECS ==> w.notBefore == notBefore.value
    ensures notAfter.Some? && notAfter.value > w.notBefore ==> w.notAfter == notAfter.value
  {
    var raw := if notBefore.Some? then notBefore.value else now;
    var nb := if raw < now - SKEW_SECS then now - SKEW_SECS else raw;
    var requested := if notAfter.Some? then notAfter.value else nb + validityDays * DAY_SECS;
    Cert(nb, if requested <= nb then nb + validityDays * DAY_SECS else requested)
  }

  /**
   The window exactly: the start is the request, or now, but no earlier than
   five minutes ago; the end is the request if it lies after the start, and
   otherwise, as without one, `validityDays` days after it.
   */
  lemma ResolveExactly(now: int, notBefore: Option<int>, notAfter: Option<int>, validityDays: nat)
    ensures var w := ResolveClampedValidity(now, notBefore, notAfter, validityDays);
      (notBefore.None? ==> w.notBefore == now)
      && (notBefore.Some? && notBefore.value >= now - 300 ==> w.notBefore == notBefore.value)
      && (notBefore.Some? && notBefore.value < now - 300 ==> w.notBefore == now - 300)
      && (notAfter.Some? && notAfter.value > w.notBefore ==> w.notAfter == notAfter.value)
      && (notAfter.None? || notAfter.value <= w.notBefore ==> w.notAfter == w.notBefore + 86400 * validityDays)
    ensures ResolveClampedValidity(now, None, None, validityDays) == Cert(now, now + 86400 * validityDays)
  {
  }

  // -------------------------------------------------------- src/star.rs

  /** `/ 2` on `i64`, toward zero. */
  function Half(x: int): int { if x >= 0 then x / 2 else -((-x) / 2) }

  /** Addition of `i64` values in a release build. */
  function AddI64(a: int, b: int): int {
    if a + b > I64_MAX then a + b - 0x1_0000_0000_0000_0000 else a + b
  }

  /** The checks of `run_once` up to the decision to reissue. */
  predicate Due(o: Order, latest: Option<Cert>, now: int) {
    o.active && o.endDate.Some? && now < o.endDate.value && o.hasCsr && o.lifetime.Some?
    && latest.Some? && now >= latest.value.notAfter - Half(o.lifetime.value)
  }

  function StartOf(o: Order, cert: Cert, now: int): int {
    if o.adjust > 0 then cert.notAfter - o.adjust else now
  }

  /** The window of the reissued certificate; `issuedAt` is the signer's own clock reading. */
  function NewWindow(o: Order, cert: Cert, now: int, issuedAt: int, days: nat): Cert
    requires Due(o, Some(cert), now)
  {
    var nb := StartOf(o, cert, now);
    var na := Min(AddI64(nb, o.lifetime.value), o.endDate.value);
    ResolveClampedValidity(issuedAt, Some(nb), Some(na), days)
  }

  function Last(chain: seq<Cert>): Option<Cert> {
    if chain == [] then None else Some(chain[|chain| - 1])
  }

  /** One pass over one order; `issuedAt` is `None` when any later step gave up. */
  function PassOrder(o: Order, chain: seq<Cert>, now: int, issuedAt: Option<int>, days: nat): seq<Cert> {
    if Due(o, Last(chain), now) && issuedAt.Some?
    then chain + [NewWindow(o, chain[|chain| - 1], now, issuedAt.value, days)]
    else chain
  }

  /** The body of the loop in `run_once`: any check that fails leaves the chain as it is. */
  method HandleOrder(order: Order, chain: seq<Cert>, now: int, issuedAt: Option<int>, days: nat)
    returns (r: seq<Cert>)
    ensures r == PassOrder(order, chain, now, issuedAt, days)
  {
    if order.endDate.None? || now >= order.endDate.value || !order.active {
      return chain;
    }
    if !order.hasCsr || order.lifetime.None? || chain == [] {
      return chain;
    }
    var cert := chain[|chain| - 1];
    if now < cert.notAfter - Half(order.lifetime.value) {
      return chain;
    }
    if issuedAt.None? {
      return chain;
    }
    var nb := if order.adjust > 0 then cert.notAfter - order.adjust else now;
    var na := Min(AddI64(nb, order.lifetime.value), order.endDate.value);
    var issued := ResolveClampedValidity(issuedAt.value, Some(nb), Some(na), days);
    return chain + [issued];
  }

  /** The signer's clock for the orders whose reissue goes through. */
  function Lookup(issuing: map<Id, int>, id: Id): Option<int> {
    if id in issuing then Some(issuing[id]) else None
  }

  /** Orders and, per order, its certificates in the order they were created. */
  class StarDb {
    var orders: map<Id, Order>
    var certs: map<Id, seq<Cert>>

    constructor (orders: map<Id, Order>, certs: map<Id, seq<Cert>>)
      ensures this.orders == orders && this.certs == certs
    {
      this.orders, this.certs := orders, certs;
    }

    /** `run_once` over the rows `list_active_star` returned. */
    method RunOnce(listed: seq<Id>, now: int, issuing: map<Id, int>, days: nat)
      requires forall i, j :: 0 <= i < j < |listed| ==> listed[i] != listed[j]
      requires forall id :: id in listed ==> id in orders && id in certs
      modifies this`certs
      ensures certs.Keys == old(certs).Keys
      ensures forall id :: id in certs && id !in listed ==> certs[id] == old(certs)[id]
      ensures forall id :: id in listed ==>
        certs[id] == PassOrder(orders[id], old(certs)[id], now, Lookup(issuing, id), days)
    {
      for i := 0 to |listed|
        invariant certs.Keys == old(certs).Keys
        invariant forall id :: id in certs && id !in listed[..i] ==> certs[id] == old(certs)[id]
        invariant forall id :: id in listed[..i] ==>
          certs[id] == PassOrder(orders[id], old(certs)[id], now, Lookup(issuing, id), days)
      {
        var id := listed[i];
        assert listed[..i + 1] == listed[..i] + [id];
        assert id !in listed[..i];
        var chain := HandleOrder(orders[id], certs[id], now, Lookup(issuing, id), days);
        certs := certs[id := chain];
      }
      assert listed[..|listed|] == listed;
    }
  }

  /**
   A pass adds a certificate exactly when the order runs, has its CSR, lifetime
   and a certificate, that one is in the second half of the lifetime, and every
   later step succeeds; it never changes the certificates there are.
   */
  lemma PassExactly(o: Order, chain: seq<Cert>, now: int, issuedAt: Option<int>, days: nat)
    ensures var r := PassOrder(o, chain, now, issuedAt, days);
      r[..|chain|] == chain && |r| <= |chain| + 1
      && (|r| == |chain| + 1 <==>
            o.active && o.endDate.Some? && now < o.endDate.value && o.hasCsr && o.lifetime.Some? && chain != []
            && issuedAt.Some?
            && now >= chain[|chain| - 1].notAfter
                      - (if o.lifetime.value >= 0 then o.lifetime.value / 2 else -(-o.lifetime.value / 2)))
      && (|r| == |chain| + 1 && o.endDate.Some? && o.lifetime.Some? && issuedAt.Some? && chain != [] ==>
            var start := if o.adjust > 0 then chain[|chain| - 1].notAfter - o.adjust else now;
            var sum := start + o.lifetime.value;
            var wrapped := if sum <= 0x7FFF_FFFF_FFFF_FFFF then sum else sum - 0x1_0000_0000_0000_0000;
            var end := if wrapped <= o.endDate.value then wrapped else o.endDate.value;
            r[|chain|] == ResolveClampedValidity(issuedAt.value, Some(start), Some(end), days))
  {
  }

  // ------------------------------------------------------ one reissue

  /** What an order asks of each window: not empty, not longer than the lifetime, not past the end. */
  predicate Within(o: Order, w: Cert)
    requires o.endDate.Some? && o.lifetime.Some?
  {
    w.notBefore < w.notAfter
    && w.notAfter - w.notBefore <= o.lifetime.value
    && w.notAfter <= o.endDate.value
  }

  /** An order whose arithmetic stays in range and whose overlap leaves room to advance. */
  predicate Sound(o: Order) {
    o.endDate.Some? && o.lifetime.Some? && o.lifetime.value > 0
    && o.adjust < o.lifetime.value
    && o.endDate.value + o.lifetime.value <= I64_MAX
  }

  predicate Timely(cert: Cert, now: int, issuedAt: int) {
    now <= cert.notAfter && issuedAt < now + SKEW_SECS
  }

  /** A timely reissue continues its predecessor within the order's bounds. */
  lemma TimelyWindow(o: Order, cert: Cert, now: int, issuedAt: int, days: nat)
    requires Sound(o) && Due(o, Some(cert), now) && Timely(cert, now, issuedAt)
    requires cert.notAfter <= o.endDate.value
    ensures var w := NewWindow(o, cert, now, issuedAt, days);
      Within(o, w)
      && w.notBefore <= cert.notAfter <= w.notAfter
      && w.notAfter == Min(StartOf(o, cert, now) + o.lifetime.value, o.endDate.value)
  {
  }

  /**
   Without timeliness, exactly when a reissue stays within the order's bounds:
   the requested end lies after the clamped start, or the fallback of
   `validity_days` happens to fit. The sum must also not wrap.
   */
  lemma WithinExactly(o: Order, cert: Cert, now: int, issuedAt: int, days: nat)
    requires Due(o, Some(cert), now) && 0 < o.lifetime.value <= I64_MAX && days >= 1
    ensures var nb := StartOf(o, cert, now);
      var start := Max(nb, issuedAt - SKEW_SECS);
      var end := Min(nb + o.lifetime.value, o.endDate.value);
      Within(o, NewWindow(o, cert, now, issuedAt, days)) <==>
        (start < end && nb + o.lifetime.value <= I64_MAX)
        || (start + days * DAY_SECS <= o.endDate.value && days * DAY_SECS <= o.lifetime.value)
  {
  }

  /** A renewal that comes too late under `lifetime-adjust` outlives the end date. */
  lemma LateRenewalOutlivesEndDate()
    ensures var o := Order(true, Some(1_100_000), true, Some(86_400), 3_600);
      var old_ := Cert(913_600, 1_000_000);
      Due(o, Some(old_), 1_090_000)
      && NewWindow(o, old_, 1_090_000, 1_090_000, 90).notAfter == 8_865_700
      && !Within(o, NewWindow(o, old_, 1_090_000, 1_090_000, 90))
  {
  }

  // ------------------------------------------------------- whole runs

  datatype Pass = Pass(now: int, issuedAt: Option<int>)

  function Passes(o: Order, chain: seq<Cert>, passes: seq<Pass>, days: nat): seq<Cert> {
    if passes == [] then chain
    else
      var p := passes[|passes| - 1];
      PassOrder(o, Passes(o, chain, passes[..|passes| - 1], days), p.now, p.issuedAt, days)
  }

  /** Every reissue of the run happens while the certificate it replaces is still valid. */
  ghost predicate TimelyRun(o: Order, chain: seq<Cert>, passes: seq<Pass>, days: nat) {
    forall k :: 0 <= k < |passes| ==>
      var before := Passes(o, chain, passes[..k], days);
      Due(o, Last(before), passes[k].now) && passes[k].issuedAt.Some? ==>
        Timely(before[|before| - 1], passes[k].now, passes[k].issuedAt.value)
  }

  /** Each certificate after the first is within bounds, overlaps its predecessor and ends no earlier. */
  ghost predicate ChainOk(o: Order, chain: seq<Cert>)
    requires o.endDate.Some? && o.lifetime.Some?
  {
    chain != [] && chain[|chain| - 1].notAfter <= o.endDate.value
    && forall i :: 1 <= i < |chain| ==>
         Within(o, chain[i])
         && chain[i].notBefore <= chain[i - 1].notAfter <= chain[i].notAfter
  }

  lemma TimelyPrefix(o: Order, chain: seq<Cert>, passes: seq<Pass>, n: nat, days: nat)
    requires n <= |passes| && TimelyRun(o, chain, passes, days)
    ensures TimelyRun(o, chain, passes[..n], days)
  {
    forall k | 0 <= k < n ensures passes[..n][..k] == passes[..k] {
    }
  }

  lemma PassKeepsChain(o: Order, chain: seq<Cert>, p: Pass, days: nat)
    requires Sound(o) && ChainOk(o, chain)
    requires Due(o, Last(chain), p.now) && p.issuedAt.Some? ==>
      Timely(chain[|chain| - 1], p.now, p.issuedAt.value)
    ensures ChainOk(o, PassOrder(o, chain, p.now, p.issuedAt, days))
  {
    if Due(o, Last(chain), p.now) && p.issuedAt.Some? {
      TimelyWindow(o, chain[|chain| - 1], p.now, p.issuedAt.value, days);
    }
  }

  /**
   In every run whose reissues are timely, every window is non-empty, at most
   the lifetime long and ends by the end date, starts no later than its
   predecessor ends, and the end never goes back; the resolver's fallback is
   never taken, whatever the configured validity.
   */
  lemma {:induction false} RunKeepsChain(o: Order, first: Cert, passes: seq<Pass>, days: nat)
    requires Sound(o) && first.notAfter <= o.endDate.value
    requires TimelyRun(o, [first], passes, days)
    ensures ChainOk(o, Passes(o, [first], passes, days))
  {
    if passes != [] {
      var n := |passes| - 1;
      TimelyPrefix(o, [first], passes, n, days);
      RunKeepsChain(o, first, passes[..n], days);
      PassKeepsChain(o, Passes(o, [first], passes[..n], days), passes[n], days);
    }
  }

  // --------------------------------------------------------- coverage

  ghost predicate Covered(chain: seq<Cert>, t: int) {
    exists i :: 0 <= i < |chain| && chain[i].notBefore <= t <= chain[i].notAfter
  }

  /** An overlapping chain leaves no second without a valid certificate. */
  lemma {:induction false} ChainCovers(o: Order, chain: seq<Cert>, t: int)
    requires o.endDate.Some? && o.lifetime.Some? && ChainOk(o, chain)
    requires chain[0].notBefore <= t <= chain[|chain| - 1].notAfter
    ensures Covered(chain, t)
  {
    var n := |chain| - 1;
    if chain[n].notBefore <= t {
      assert chain[n].notBefore <= t <= chain[n].notAfter;
    } else {
      var front := chain[..n];
      assert Within(o, chain[n]) && chain[n].notBefore <= chain[n - 1].notAfter <= chain[n].notAfter;
      ChainCovers(o, front, t);
      var i :| 0 <= i < |front| && front[i].notBefore <= t <= front[i].notAfter;
      assert chain[i].notBefore <= t <= chain[i].notAfter;
    }
  }

  /**
   The gap between passes that keeps renewal ahead of expiry: half the
   lifetime (a certificate not yet due has more than that left) and, with an
   overlap, no more than what one reissue gains.
   */
  predicate GapFits(o: Order, gap: nat)
    requires Sound(o)
  {
    gap <= o.lifetime.value / 2 + 1 && (o.adjust > 0 ==> gap <= o.lifetime.value - o.adjust)
  }

  /** The current certificate lasts up to the next pass, or is the last one. */
  predicate Ahead(o: Order, chain: seq<Cert>, now: int, gap: nat)
    requires o.endDate.Some?
  {
    chain != [] && (chain[|chain| - 1].notAfter == o.endDate.value
                    || chain[|chain| - 1].notAfter >= now + gap)
  }

  function Clock(start: int, passes: seq<Pass>): int {
    if passes == [] then start else passes[|passes| - 1].now
  }

  /** Passes come at most `gap` apart, before the end date, and every reissue that is due succeeds. */
  ghost predicate Steady(o: Order, start: int, passes: seq<Pass>, gap: nat)
    requires o.endDate.Some?
  {
    forall k :: 0 <= k < |passes| ==>
      passes[k].now <= Clock(start, passes[..k]) + gap
      && passes[k].now < o.endDate.value
      && passes[k].issuedAt.Some? && passes[k].issuedAt.value < passes[k].now + SKEW_SECS
  }

  lemma PassKeepsAhead(o: Order, chain: seq<Cert>, before: int, p: Pass, gap: nat, days: nat)
    requires Sound(o) && GapFits(o, gap) && o.active && o.hasCsr
    requires ChainOk(o, chain) && Ahead(o, chain, before, gap)
    requires p.now <= before + gap && p.now < o.endDate.value
    requires p.issuedAt.Some? && p.issuedAt.value < p.now + SKEW_SECS
    ensures Timely(chain[|chain| - 1], p.now, p.issuedAt.value)
    ensures Ahead(o, PassOrder(o, chain, p.now, p.issuedAt, days), p.now, gap)
  {
    var cert := chain[|chain| - 1];
    if Due(o, Last(chain), p.now) {
      TimelyWindow(o, cert, p.now, p.issuedAt.value, days);
    }
  }

  lemma {:induction false} SteadyRun(o: Order, first: Cert, start: int, passes: seq<Pass>, gap: nat, days: nat)
    requires Sound(o) && GapFits(o, gap) && o.active && o.hasCsr
    requires first.notAfter <= o.endDate.value && Ahead(o, [first], start, gap)
    requires Steady(o, start, passes, gap)
    ensures ChainOk(o, Passes(o, [first], passes, days))
    ensures Passes(o, [first], passes, days)[0] == first
    ensures Ahead(o, Passes(o, [first], passes, days), Clock(start, passes), gap)
  {
    if passes != [] {
      var n := |passes| - 1;
      var front := passes[..n];
      assert forall k :: 0 <= k < n ==> front[k] == passes[k] && front[..k] == passes[..k];
      SteadyRun(o, first, start, front, gap, days);
      var chain := Passes(o, [first], front, days);
      PassKeepsAhead(o, chain, Clock(start, front), passes[n], gap, days);
      PassKeepsChain(o, chain, passes[n], days);
    }
  }

  /**
   Passes whose gaps fit keep the order covered from the first certificate to
   the end date, without a second missing.
   */
  lemma SteadyRenewalCovers(o: Order, first: Cert, start: int, passes: seq<Pass>, gap: nat, days: nat, t: int)
    requires Sound(o) && GapFits(o, gap) && o.active && o.hasCsr
    requires first.notAfter <= o.endDate.value && Ahead(o, [first], start, gap)
    requires Steady(o, start, passes, gap)
    requires Clock(start, passes) + gap >= o.endDate.value
    requires first.notBefore <= t <= o.endDate.value
    ensures Covered(Passes(o, [first], passes, days), t)
  {
    SteadyRun(o, first, start, passes, gap, days);
    ChainCovers(o, Passes(o, [first], passes, days), t);
  }

  /** Passes are at most `gap` apart and each due reissue succeeds, from a certificate that lasts to the first. */
  ghost predicate SteadyFrom(o: Order, first: Cert, start: int, passes: seq<Pass>, gap: nat)
    requires o.endDate.Some? && o.lifetime.Some?
  {
    Within(o, first) && Ahead(o, [first], start, gap) && Steady(o, start, passes, gap)
  }

  /** Up to when a run must have covered the order: the next pass may be `gap` away. */
  function Horizon(o: Order, start: int, passes: seq<Pass>, gap: nat): int
    requires o.endDate.Some?
  {
    Min(Clock(start, passes) + gap, o.endDate.value)
  }

  ghost predicate AlwaysCovered(o: Order, gap: nat, days: nat)
    requires o.endDate.Some? && o.lifetime.Some?
  {
    forall first, start, passes, t ::
      SteadyFrom(o, first, start, passes, gap) && first.notBefore <= t <= Horizon(o, start, passes, gap) ==>
        Covered(Passes(o, [first], passes, days), t)
  }

  /**
   Every steady run leaves no second uncovered up to the time of its next pass
   exactly when the gap fits: half the lifetime alone is not enough.
   */
  lemma CoveredExactly(o: Order, gap: nat, days: nat)
    requires Sound(o) && o.active && o.hasCsr
    ensures AlwaysCovered(o, gap, days) <==> GapFits(o, gap)
  {
    if GapFits(o, gap) {
      forall first, start, passes, t |
        SteadyFrom(o, first, start, passes, gap) && first.notBefore <= t <= Horizon(o, start, passes, gap)
        ensures Covered(Passes(o, [first], passes, days), t)
      {
        SteadyRun(o, first, start, passes, gap, days);
        ChainCovers(o, Passes(o, [first], passes, days), t);
      }
    } else {
      GapUncovered(o, gap, days);
    }
  }

  /** One pass, of an order whose first certificate lasts exactly to the end of the gap. */
  lemma SinglePass(o: Order, first: Cert, start: int, p: Pass, gap: nat, days: nat)
    requires o.endDate.Some? && o.lifetime.Some? && Within(o, first)
    requires first.notAfter == start + gap < o.endDate.value
    requires p.now <= start + gap && p.issuedAt == Some(p.now)
    ensures SteadyFrom(o, first, start, [p], gap)
    ensures Horizon(o, start, [p], gap) == Min(p.now + gap, o.endDate.value)
    ensures Passes(o, [first], [p], days) == PassOrder(o, [first], p.now, p.issuedAt, days)
  {
    assert [p][..0] == [];
  }

  /** When the gap does not fit, a run of one pass misses a second. */
  lemma GapUncovered(o: Order, gap: nat, days: nat)
    requires Sound(o) && o.active && o.hasCsr && !GapFits(o, gap)
    ensures !AlwaysCovered(o, gap, days)
  {
    var half := o.lifetime.value / 2;
    var start := o.endDate.value - 2 * gap - 2;
    var first := Cert(start + gap - Min(gap, o.lifetime.value), start + gap);
    if gap > half + 1 {
      // not yet due one second before the threshold, expired before the next pass
      var p := Pass(start + gap - half - 1, Some(start + gap - half - 1));
      SinglePass(o, first, start, p, gap, days);
      assert Passes(o, [first], [p], days) == [first];
      assert !Covered(Passes(o, [first], [p], days), start + gap + 1);
    } else {
      // reissued at the last moment, for less than a gap
      var p := Pass(start + gap, Some(start + gap));
      SinglePass(o, first, start, p, gap, days);
      TimelyWindow(o, first, p.now, p.now, days);
      var w := NewWindow(o, first, p.now, p.now, days);
      assert Passes(o, [first], [p], days) == [first, w];
      assert w.notAfter < start + 2 * gap;
      assert !Covered([first, w], start + 2 * gap);
    }
  }

  /** The smallest instance: gaps of half a lifetime under an overlap close to the lifetime. */
  lemma HalfLifetimeGapsFallBehind()
    ensures var o := Order(true, Some(10_000), true, Some(100), 99);
      var passes := [Pass(50, Some(50)), Pass(100, Some(100)), Pass(150, Some(150))];
      Sound(o) && Ahead(o, [Cert(0, 100)], 0, 50) && Steady(o, 0, passes, 50)
      && !Covered(Passes(o, [Cert(0, 100)], passes, 90), 150)
  {
    var o := Order(true, Some(10_000), true, Some(100), 99);
    var p1, p2, p3 := Pass(50, Some(50)), Pass(100, Some(100)), Pass(150, Some(150));
    var passes := [p1, p2, p3];
    assert passes[..2] == [p1, p2] && [p1, p2][..1] == [p1] && [p1][..0] == [];
    var c0 := [Cert(0, 100)];
    assert Passes(o, c0, [], 90) == c0;
    assert Passes(o, c0, [p1], 90) == [Cert(0, 100), Cert(1, 101)];
    assert Passes(o, c0, [p1, p2], 90) == [Cert(0, 100), Cert(1, 101), Cert(2, 102)];
    assert Passes(o, c0, passes, 90) == [Cert(0, 100), Cert(1, 101), Cert(2, 102), Cert(3, 103)];
  }

  // ------------------------------------------------------ the last stretch

  /** A pass in the last half lifetime, while the order is still running. */
  predicate LastStretch(o: Order, p: Pass)
    requires Sound(o)
  {
    o.endDate.value - o.lifetime.value / 2 <= p.now < o.endDate.value
    && p.issuedAt.Some? && p.issuedAt.value < p.now + SKEW_SECS
  }

  lemma LastStretchStep(o: Order, chain: seq<Cert>, p: Pass, days: nat)
    requires Sound(o) && o.active && o.hasCsr && ChainOk(o, chain) && LastStretch(o, p)
    requires chain[|chain| - 1].notAfter == o.endDate.value
    ensures var r := PassOrder(o, chain, p.now, p.issuedAt, days);
      |r| == |chain| + 1 && r[..|chain|] == chain && r[|chain|].notAfter == o.endDate.value && ChainOk(o, r)
  {
    TimelyWindow(o, chain[|chain| - 1], p.now, p.issuedAt.value, days);
    PassKeepsChain(o, chain, p, days);
  }

  /**
   Once the current certificate ends at the end date, every pass in the last
   half lifetime issues one more that ends there too: one per pass.
   */
  lemma {:induction false} LastStretchRepeats(o: Order, chain: seq<Cert>, passes: seq<Pass>, days: nat)
    requires Sound(o) && o.active && o.hasCsr && ChainOk(o, chain)
    requires chain[|chain| - 1].notAfter == o.endDate.value
    requires forall k :: 0 <= k < |passes| ==> LastStretch(o, passes[k])
    ensures var r := Passes(o, chain, passes, days);
      |r| == |chain| + |passes| && r[..|chain|] == chain && ChainOk(o, r)
      && forall i :: |chain| - 1 <= i < |r| ==> r[i].notAfter == o.endDate.value
  {
    if passes != [] {
      var n := |passes| - 1;
      var before := Passes(o, chain, passes[..n], days);
      LastStretchRepeats(o, chain, passes[..n], days);
      LastStretchStep(o, before, passes[n], days);
      var r := PassOrder(o, before, passes[n].now, passes[n].issuedAt, days);
      assert forall i :: 0 <= i < |before| ==> r[i] == before[i];
      assert r[..|chain|] == before[..|chain|];
    }
  }

  // ------------------------------------------- which certificate is latest

  /** A stored row; `created` is the clock of the pass that stored it. */
  datatype Stored = Stored(cert: Cert, created: int)

  /** What ORDER BY created DESC LIMIT 1 may return. */
  ghost predicate Newest(rows: seq<Stored>, i: int) {
    0 <= i < |rows| && forall j :: 0 <= j < |rows| ==> rows[j].created <= rows[i].created
  }

  function RowPass(o: Order, rows: seq<Stored>, i: nat, p: Pass, days: nat): seq<Stored>
    requires i < |rows|
  {
    if Due(o, Some(rows[i].cert), p.now) && p.issuedAt.Some?
    then rows + [Stored(NewWindow(o, rows[i].cert, p.now, p.issuedAt.value, days), p.now)]
    else rows
  }

  function Certs(rows: seq<Stored>): (r: seq<Cert>)
    ensures |r| == |rows|
  {
    seq(|rows|, i requires 0 <= i < |rows| => rows[i].cert)
  }

  ghost predicate Rising(rows: seq<Stored>) {
    forall i, j :: 0 <= i < j < |rows| ==> rows[i].created < rows[j].created
  }

  /** The query is bound to return the row stored last exactly when that row alone has the latest stamp. */
  lemma NewestIsLast(rows: seq<Stored>)
    requires rows != []
    ensures (forall i :: Newest(rows, i) ==> i == |rows| - 1)
      <==> forall j :: 0 <= j < |rows| - 1 ==> rows[j].created < rows[|rows| - 1].created
  {
    var n := |rows| - 1;
    if exists j :: 0 <= j < n && rows[j].created >= rows[n].created {
      var i := MaxStamp(rows[..n]);
      assert Newest(rows[..n], i);
      assert forall k :: 0 <= k < n ==> rows[..n][k] == rows[k];
      assert Newest(rows, i);
    }
  }

  lemma {:induction false} MaxStamp(rows: seq<Stored>) returns (i: nat)
    requires rows != []
    ensures Newest(rows, i)
  {
    var n := |rows| - 1;
    i := n;
    if n > 0 {
      var k := MaxStamp(rows[..n]);
      assert forall j :: 0 <= j < n ==> rows[..n][j] == rows[j];
      if rows[k].created > rows[n].created {
        i := k;
      }
    }
  }

  /** Under a clock that moves forward, a pass on stored rows is the pass on the chain. */
  lemma RowPassIsPass(o: Order, rows: seq<Stored>, i: nat, p: Pass, days: nat)
    requires rows != [] && Rising(rows) && Newest(rows, i) && rows[|rows| - 1].created < p.now
    ensures Certs(RowPass(o, rows, i, p, days)) == PassOrder(o, Certs(rows), p.now, p.issuedAt, days)
    ensures Rising(RowPass(o, rows, i, p, days))
    ensures var r := RowPass(o, rows, i, p, days); r != [] && r[|r| - 1].created <= p.now
  {
    NewestIsLast(rows);
    assert i == |rows| - 1;
  }

  /** Rows a run may lead to, whatever row each query picks among the newest. */
  ghost predicate Leads(o: Order, rows: seq<Stored>, passes: seq<Pass>, days: nat, out: seq<Stored>) {
    if passes == [] then out == rows
    else
      var n := |passes| - 1;
      exists mid: seq<Stored>, i: nat ::
        Leads(o, rows, passes[..n], days, mid) && Newest(mid, i) && out == RowPass(o, mid, i, passes[n], days)
  }

  /** Whenever the clock moves forward, the rows stored are exactly the chain of the run. */
  lemma {:induction false} RowsAreChain(o: Order, first: Stored, passes: seq<Pass>, days: nat, out: seq<Stored>)
    requires Leads(o, [first], passes, days, out)
    requires forall k :: 0 <= k < |passes| ==> Clock(first.created, passes[..k]) < passes[k].now
    ensures Certs(out) == Passes(o, [first.cert], passes, days)
    ensures out != [] && Rising(out) && out[|out| - 1].created <= Clock(first.created, passes)
  {
    if passes != [] {
      var n := |passes| - 1;
      var front := passes[..n];
      assert forall k :: 0 <= k < n ==> front[k] == passes[k] && front[..k] == passes[..k];
      var mid: seq<Stored>, i: nat :|
        Leads(o, [first], front, days, mid) && Newest(mid, i) && out == RowPass(o, mid, i, passes[n], days);
      RowsAreChain(o, first, front, days, mid);
      RowsStep(o, mid, i, passes[n], days, out, Passes(o, [first.cert], front, days));
    }
  }

  lemma RowsStep(o: Order, rows: seq<Stored>, i: nat, p: Pass, days: nat, out: seq<Stored>, chain: seq<Cert>)
    requires rows != [] && Rising(rows) && Newest(rows, i) && rows[|rows| - 1].created < p.now
    requires out == RowPass(o, rows, i, p, days) && chain == Certs(rows)
    ensures Certs(out) == PassOrder(o, chain, p.now, p.issuedAt, days)
    ensures out != [] && Rising(out) && out[|out| - 1].created <= p.now
  {
    RowPassIsPass(o, rows, i, p, days);
  }
}
