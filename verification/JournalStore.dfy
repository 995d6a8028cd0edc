/**
 Audit queries of src/journal.rs: over the daemon's evicting store and over
 the JSON Lines file. JSON text is modelled by the object it stands for.
 */
module JournalStore {
  import opened Common
  import opened JournalDatagram
  import opened Lists

  function Ascii(s: string): (r: Bytes)
    requires forall i :: 0 <= i < |s| ==> s[i] < 128 as char
    ensures |r| == |s|
  {
    seq(|s|, i requires 0 <= i < |s| => s[i] as int)
  }

  const OCCURRED_AT: Bytes := Ascii("occurred_at")
  const EVENT_TYPE: Bytes := Ascii("AKAMU_EVENT_TYPE")
  const SUBJECT: Bytes := Ascii("AKAMU_SUBJECT")
  const PRINCIPAL: Bytes := Ascii("AKAMU_PRINCIPAL")
  const OUTCOME: Bytes := Ascii("AKAMU_OUTCOME")
  const DETAIL: Bytes := Ascii("AKAMU_DETAIL")

  const DAEMON_STORE_CAP: nat := 100_000
  const DRAIN: nat := DAEMON_STORE_CAP / 10
  const MAX_QUERY_LINES: nat := 500_000

  datatype Entry = Entry(occurredAt: Bytes, fields: map<Bytes, Bytes>)

  datatype Row = Row(occurredAt: Bytes, eventType: Bytes, subject: Option<Bytes>,
                     principal: Option<Bytes>, outcome: Bytes, detail: Option<Bytes>)

  datatype Query = Query(eventType: Option<Bytes>, subject: Option<Bytes>, from: Option<Bytes>,
                         until: Option<Bytes>, outcome: Option<Bytes>, limit: nat, offset: nat)

  // ------------------------------------------------------- filter and rows

  function Get(m: map<Bytes, Bytes>, k: Bytes): Option<Bytes> {
    if k in m then Some(m[k]) else None
  }

  function GetOrEmpty(m: map<Bytes, Bytes>, k: Bytes): Bytes {
    if k in m then m[k] else []
  }

  /** Octet-wise order of strings. */
  predicate Less(a: Bytes, b: Bytes) {
    b != [] && (a == [] || a[0] < b[0] || (a[0] == b[0] && Less(a[1..], b[1..])))
  }

  predicate FilterEntry(e: Entry, q: Query) {
    (q.eventType.Some? ==> Get(e.fields, EVENT_TYPE) == q.eventType)
    && (q.subject.Some? ==> Get(e.fields, SUBJECT) == q.subject)
    && (q.outcome.Some? ==> Get(e.fields, OUTCOME) == q.outcome)
    && (q.from.Some? ==> !Less(e.occurredAt, q.from.value))
    && (q.until.Some? ==> !Less(q.until.value, e.occurredAt))
  }

  function EntryToRow(e: Entry): Row {
    Row(e.occurredAt, GetOrEmpty(e.fields, EVENT_TYPE), Get(e.fields, SUBJECT),
        Get(e.fields, PRINCIPAL), GetOrEmpty(e.fields, OUTCOME), Get(e.fields, DETAIL))
  }

  function Keep(q: Query): Entry -> bool { e => FilterEntry(e, q) }

  function Page<T>(s: seq<T>, q: Query): seq<T> { Take(Skip(s, q.offset), q.limit) }

  // -------------------------------------------------------- daemon store

  function QueryStore(entries: seq<Entry>, q: Query): seq<Row> {
    Map(Page(Filter(Reverse(entries), Keep(q)), q), EntryToRow)
  }

  function Push(store: seq<Entry>, e: Entry): seq<Entry> {
    (if |store| >= DAEMON_STORE_CAP then store[DRAIN..] else store) + [e]
  }

  ghost function StoreAfter(received: seq<Entry>): seq<Entry> {
    if received == [] then [] else Push(StoreAfter(received[..|received| - 1]), received[|received| - 1])
  }

  /** How many of the last entries are kept after `n` arrivals. */
  function StoreLen(n: nat): nat {
    if n <= DAEMON_STORE_CAP then n
    else DAEMON_STORE_CAP - DRAIN + 1 + (n - DAEMON_STORE_CAP - 1) % DRAIN
  }

  lemma ModStep(x: nat)
    ensures (x + 1) % 10_000 == if x % 10_000 == 9_999 then 0 else x % 10_000 + 1
  {
  }

  lemma StoreLenStep(n: nat)
    ensures StoreLen(n) <= n && StoreLen(n) <= DAEMON_STORE_CAP
    ensures StoreLen(n + 1) == 1 + if StoreLen(n) == DAEMON_STORE_CAP then StoreLen(n) - DRAIN else StoreLen(n)
    ensures n >= DAEMON_STORE_CAP ==> 10 * StoreLen(n) > 9 * DAEMON_STORE_CAP
  {
    if n > DAEMON_STORE_CAP {
      assert DRAIN == 10_000;
      ModStep(n - DAEMON_STORE_CAP - 1);
    }
  }

  /** After any arrivals the store is exactly the last `StoreLen` of them. */
  lemma {:induction false} StoreIsSuffix(received: seq<Entry>)
    ensures StoreLen(|received|) <= |received|
    ensures StoreAfter(received) == received[|received| - StoreLen(|received|)..]
  {
    if received != [] {
      var n := |received| - 1;
      StoreIsSuffix(received[..n]);
      PushOntoSuffix(received[..n], received[n]);
      assert received == received[..n] + [received[n]];
    }
  }

  lemma PushOntoSuffix(received: seq<Entry>, e: Entry)
    requires StoreLen(|received|) <= |received|
    ensures var n := |received| + 1;
      StoreLen(n) <= n
      && Push(received[n - 1 - StoreLen(n - 1)..], e) == (received + [e])[n - StoreLen(n)..]
  {
    var n, k := |received|, StoreLen(|received|);
    StoreLenStep(n);
    if k == DAEMON_STORE_CAP {
      assert received[n - k..][DRAIN..] == received[n - k + DRAIN..];
    }
  }

  /** Never above the cap, and above nine tenths of it once filled. */
  lemma StoreBounds(received: seq<Entry>)
    ensures |StoreAfter(received)| <= DAEMON_STORE_CAP == 100_000
    ensures |received| >= 100_000 ==> |StoreAfter(received)| > 90_000
    ensures |received| <= 100_000 ==> StoreAfter(received) == received
  {
    StoreIsSuffix(received);
    StoreLenStep(|received|);
  }

  /** The store the daemon thread fills and queries read. */
  class DaemonStore {
    var entries: seq<Entry>
    ghost var received: seq<Entry>

    ghost predicate Valid()
      reads this
    {
      entries == StoreAfter(received)
    }

    constructor ()
      ensures Valid() && received == []
    {
      entries, received := [], [];
    }

    /** One datagram off the socket, parsed, stamped and pushed. */
    method Receive(data: Bytes, occurredAt: Bytes)
      requires Valid()
      modifies this
      ensures Valid()
      ensures received == old(received) + [Entry(occurredAt, Parse(Received(data), map[]))]
      ensures |entries| <= DAEMON_STORE_CAP
    {
      var fields := ParseJournalDatagram(Received(data));
      StoreBounds(received);
      if |entries| >= DAEMON_STORE_CAP {
        entries := entries[DRAIN..];
      }
      entries := entries + [Entry(occurredAt, fields)];
      received := received + [Entry(occurredAt, fields)];
      assert received[..|received| - 1] == old(received);
    }
  }

  // ------------------------------------------------------------- the file

  datatype Json = Text(s: Bytes) | NotText

  datatype Line = Unreadable | Blank | Malformed | NotObject | Object(members: map<Bytes, Json>)

  /** The object the file writer builds: the time first, then the fields over it. */
  function Members(occurredAt: Bytes, fs: seq<Field>): map<Bytes, Json> {
    if fs == [] then map[OCCURRED_AT := Text(occurredAt)]
    else Members(occurredAt, fs[..|fs| - 1])[fs[|fs| - 1].key := Text(fs[|fs| - 1].value)]
  }

  /** The entry a line is read back as, if it is one. */
  function LineEntry(line: Line): Option<Entry> {
    match line
    case Object(m) =>
      Some(Entry(if OCCURRED_AT in m && m[OCCURRED_AT].Text? then m[OCCURRED_AT].s else [],
                 map k | k in m && k != OCCURRED_AT && m[k].Text? :: m[k].s))
    case _ => None
  }

  function LineRow(line: Line, q: Query): Option<Row> {
    match LineEntry(line)
    case None => None
    case Some(e) => if FilterEntry(e, q) then Some(EntryToRow(e)) else None
  }

  function ReadLine(q: Query): Line -> Option<Row> { line => LineRow(line, q) }

  function QueryFile(lines: seq<Line>, q: Query): seq<Row> {
    Page(Reverse(FilterMap(Take(lines, MAX_QUERY_LINES), ReadLine(q))), q)
  }

  // ---------------------------------------------------- pages of the store

  /** Matching entries by index: all of them, each once, newest first. */
  ghost function Matching(es: seq<Entry>, q: Query): (ix: seq<nat>)
    ensures forall k :: 0 <= k < |ix| ==> ix[k] < |es| && FilterEntry(es[ix[k]], q)
    ensures forall k, l :: 0 <= k < l < |ix| ==> ix[k] > ix[l]
    ensures forall i :: 0 <= i < |es| && FilterEntry(es[i], q) ==> i in ix
  {
    KeptExactly(es, Keep(q), |es|);
    Kept(es, Keep(q), |es|)
  }

  ghost function Listing(es: seq<Entry>, q: Query): seq<Row> {
    Map(At(es, Matching(es, q)), EntryToRow)
  }

  /** The first `k` pages of `size` rows, one after the other. */
  ghost function Pages(es: seq<Entry>, q: Query, size: nat, k: nat): seq<Row> {
    if k == 0 then []
    else Pages(es, q, size, k - 1) + QueryStore(es, q.(offset := (k - 1) * size, limit := size))
  }

  lemma StorePage(es: seq<Entry>, q: Query)
    ensures QueryStore(es, q) == Page(Listing(es, q), q)
  {
    FilterReverse(es, Keep(q), |es|);
    assert es[..|es|] == es;
    MapPage(At(es, Matching(es, q)), EntryToRow, q.offset, q.limit);
  }

  lemma PageKeepsMatching(es: seq<Entry>, q: Query, p: Query)
    requires p == q.(offset := p.offset, limit := p.limit)
    ensures Matching(es, p) == Matching(es, q)
  {
    KeptSame(es, Keep(p), Keep(q), |es|);
  }

  /**
   Paging a resting store from offset 0 lists every matching entry once,
   newest first, and nothing else.
   */
  lemma {:induction false} PagesListAll(es: seq<Entry>, q: Query, size: nat, k: nat)
    ensures Pages(es, q, size, k) == Take(Listing(es, q), k * size)
  {
    if k == 0 {
      assert 0 * size == 0;
    } else {
      PagesListAll(es, q, size, k - 1);
      var page := q.(offset := (k - 1) * size, limit := size);
      StorePage(es, page);
      PageKeepsMatching(es, q, page);
      NextPage(Listing(es, q), size, k - 1);
    }
  }

  // --------------------------------------- which entries, and what is shown

  /** Octet-wise order of text: equal up to some place, then a smaller octet or the end. */
  ghost predicate Before(a: Bytes, b: Bytes) { exists k :: DiffersAt(a, b, k) }

  ghost predicate DiffersAt(a: Bytes, b: Bytes, k: int) {
    0 <= k <= |a| && k < |b| && a[..k] == b[..k] && (k == |a| || a[k] < b[k])
  }

  lemma {:induction false} LessIsBefore(a: Bytes, b: Bytes)
    ensures Less(a, b) <==> Before(a, b)
  {
    forall k | DiffersAt(a, b, k) && k > 0 ensures a != [] && b != [] && a[0] == b[0] {
      assert a[..k][0] == b[..k][0];
    }
    if a == [] || b == [] || a[0] != b[0] {
      assert Less(a, b) ==> DiffersAt(a, b, 0);
    } else {
      LessIsBefore(a[1..], b[1..]);
      if Before(a[1..], b[1..]) {
        var k :| DiffersAt(a[1..], b[1..], k);
        assert a[..k + 1] == [a[0]] + a[1..][..k] && b[..k + 1] == [b[0]] + b[1..][..k];
        assert DiffersAt(a, b, k + 1);
      }
      if Before(a, b) {
        var k :| DiffersAt(a, b, k);
        assert k > 0 && a[1..][..k - 1] == a[..k][1..] && b[1..][..k - 1] == b[..k][1..];
        assert DiffersAt(a[1..], b[1..], k - 1);
      }
    }
  }

  /** A strict total order. */
  lemma {:induction false} LessTotal(a: Bytes, b: Bytes)
    ensures !Less(a, a) && !(Less(a, b) && Less(b, a))
    ensures Less(a, b) || a == b || Less(b, a)
    decreases |a|
  {
    if a != [] && b != [] {
      LessTotal(a[1..], b[1..]);
      assert a == [a[0]] + a[1..] && b == [b[0]] + b[1..];
    } else if a != [] {
      LessTotal(a[1..], b);
    }
  }

  lemma {:induction false} LessTransitive(a: Bytes, b: Bytes, c: Bytes)
    requires Less(a, b) && Less(b, c)
    ensures Less(a, c)
  {
    if a != [] && a[0] == b[0] == c[0] {
      LessTransitive(a[1..], b[1..], c[1..]);
    }
  }

  ghost predicate Holds(e: Entry, key: string, want: Option<Bytes>)
    requires forall i :: 0 <= i < |key| ==> key[i] < 128 as char
  {
    want.Some? ==> Ascii(key) in e.fields && e.fields[Ascii(key)] == want.value
  }

  /** The entries a query asks for: each given value is the entry's own, and its time lies in the given range. */
  ghost predicate Selected(e: Entry, q: Query) {
    Holds(e, "AKAMU_EVENT_TYPE", q.eventType) && Holds(e, "AKAMU_SUBJECT", q.subject)
    && Holds(e, "AKAMU_OUTCOME", q.outcome)
    && (q.from.Some? ==> q.from.value == e.occurredAt || Before(q.from.value, e.occurredAt))
    && (q.until.Some? ==> e.occurredAt == q.until.value || Before(e.occurredAt, q.until.value))
  }

  ghost predicate Column(e: Entry, key: string, shown: Option<Bytes>)
    requires forall i :: 0 <= i < |key| ==> key[i] < 128 as char
  {
    if Ascii(key) in e.fields then shown == Some(e.fields[Ascii(key)]) else shown == None
  }

  /** A row shows the time and five fields by name; type and outcome are empty when absent. */
  ghost predicate Shows(row: Row, e: Entry) {
    row.occurredAt == e.occurredAt
    && (Column(e, "AKAMU_EVENT_TYPE", Some(row.eventType)) || (Column(e, "AKAMU_EVENT_TYPE", None) && row.eventType == []))
    && (Column(e, "AKAMU_OUTCOME", Some(row.outcome)) || (Column(e, "AKAMU_OUTCOME", None) && row.outcome == []))
    && Column(e, "AKAMU_SUBJECT", row.subject) && Column(e, "AKAMU_PRINCIPAL", row.principal)
    && Column(e, "AKAMU_DETAIL", row.detail)
  }

  lemma SelectedExactly(e: Entry, q: Query)
    ensures FilterEntry(e, q) <==> Selected(e, q)
    ensures Shows(EntryToRow(e), e)
  {
    if q.from.Some? {
      LessTotal(e.occurredAt, q.from.value);
      LessIsBefore(q.from.value, e.occurredAt);
    }
    if q.until.Some? {
      LessTotal(e.occurredAt, q.until.value);
      LessIsBefore(e.occurredAt, q.until.value);
    }
  }

  /** The rows of the entries at `ix`: exactly the selected ones, newest first. */
  ghost predicate Answers(rows: seq<Row>, es: seq<Entry>, q: Query, ix: seq<nat>) {
    |rows| == |ix|
    && (forall k, l :: 0 <= k < l < |ix| ==> ix[k] > ix[l])
    && (forall i: nat :: i in ix <==> i < |es| && Selected(es[i], q))
    && (forall k :: 0 <= k < |ix| ==> ix[k] < |es| && Shows(rows[k], es[ix[k]]))
  }

  function Slice(rows: seq<Row>, offset: nat, limit: nat): seq<Row> {
    if offset >= |rows| then []
    else if offset + limit >= |rows| then rows[offset..]
    else rows[offset..offset + limit]
  }

  /**
   A store query answers with `limit` rows from `offset` on of the listing of
   exactly the selected entries, each once, newest first, each row showing its
   entry.
   */
  lemma StoreAnswer(es: seq<Entry>, q: Query)
    ensures exists rows, ix :: Answers(rows, es, q, ix) && QueryStore(es, q) == Slice(rows, q.offset, q.limit)
  {
    var ix, rows := Matching(es, q), Listing(es, q);
    StorePage(es, q);
    forall i: nat | i < |es| ensures FilterEntry(es[i], q) <==> Selected(es[i], q) {
      SelectedExactly(es[i], q);
    }
    forall k | 0 <= k < |ix| ensures Shows(rows[k], es[ix[k]]) {
      SelectedExactly(es[ix[k]], q);
    }
    assert Answers(rows, es, q, ix);
  }

  /** The entries the first 500 000 lines of a file hold. */
  ghost function FileEntries(lines: seq<Line>): seq<Entry> { FilterMap(Take(lines, 500_000), LineEntry) }

  /** A file query answers as the store would with those entries. */
  lemma FileAnswer(lines: seq<Line>, q: Query)
    ensures QueryFile(lines, q) == QueryStore(FileEntries(lines), q)
  {
    var first, es := Take(lines, MAX_QUERY_LINES), FileEntries(lines);
    var show := (e: Entry) => if FilterEntry(e, q) then Some(EntryToRow(e)) else None;
    FilterMapThrough(first, LineEntry, show, ReadLine(q));
    FilterMapReverse(es, es, Keep(q), EntryToRow, show);
    MapPage(Filter(Reverse(es), Keep(q)), EntryToRow, q.offset, q.limit);
  }

  /** What a line holds: text members of an object, the time apart; anything else is no entry. */
  lemma LineHolds(line: Line, key: Bytes)
    ensures LineEntry(line).Some? <==> line.Object?
    ensures line.Object? ==>
      var e, m := LineEntry(line).value, line.members;
      (Ascii("occurred_at") in m && m[Ascii("occurred_at")].Text? ==>
         e.occurredAt == m[Ascii("occurred_at")].s)
      && (!(Ascii("occurred_at") in m && m[Ascii("occurred_at")].Text?) ==> e.occurredAt == [])
      && (key in e.fields <==> key != Ascii("occurred_at") && key in m && m[key].Text?)
      && (key in e.fields ==> e.fields[key] == m[key].s)
  {
  }

  // ----------------------------------------- store and file agree on rows

  const ROW_KEYS: seq<Bytes> := [EVENT_TYPE, SUBJECT, PRINCIPAL, OUTCOME, DETAIL]

  /** An event as handed to `send`, with the time it was stamped. */
  datatype Event = Event(occurredAt: Bytes, fields: seq<Field>) {
    /** What the daemon pushes for it: printed, cut to the buffer, parsed. */
    function Stored(): Entry { Entry(occurredAt, Parse(Received(Datagram(fields)), map[])) }

    function Written(): Line { Object(Members(occurredAt, fields)) }

    /** No field carries the name the file writer uses for the time, save with the same value. */
    ghost predicate KeepsTime() {
      OCCURRED_AT in LastWins(fields) ==> LastWins(fields)[OCCURRED_AT] == occurredAt
    }

    /** The values a row shows reach the daemon as they were sent. */
    ghost predicate Arrives() {
      forall k :: k in ROW_KEYS ==> Get(Stored().fields, k) == Get(LastWins(fields), k)
    }

    /** Text with clean keys whose datagram fits the daemon's buffer. */
    ghost predicate Deliverable() {
      AllSent(fields) && AllClean(fields) && |Datagram(fields)| <= RECV_BUFFER
    }
  }

  lemma DeliverableArrives(ev: Event)
    requires ev.Deliverable()
    ensures ev.Stored() == Entry(ev.occurredAt, LastWins(ev.fields)) && ev.Arrives()
  {
    DatagramRoundTrip(ev.fields);
  }

  lemma {:induction false} MembersMeaning(occurredAt: Bytes, fs: seq<Field>)
    ensures var m, w := Members(occurredAt, fs), LastWins(fs);
      m.Keys == w.Keys + {OCCURRED_AT}
      && (forall k :: k in w ==> m[k] == Text(w[k]))
      && (OCCURRED_AT !in w ==> m[OCCURRED_AT] == Text(occurredAt))
  {
    if fs != [] {
      MembersMeaning(occurredAt, fs[..|fs| - 1]);
    }
  }

  lemma QueryKeysDistinct()
    ensures OCCURRED_AT !in {EVENT_TYPE, SUBJECT, PRINCIPAL, OUTCOME, DETAIL}
  {
    assert |OCCURRED_AT| == 11 && |EVENT_TYPE| == 16 && |SUBJECT| == 13;
    assert |PRINCIPAL| == 15 && |OUTCOME| == 13 && |DETAIL| == 12;
  }

  /** What a written line is read back as. */
  lemma WrittenLine(ev: Event)
    ensures var w := LastWins(ev.fields);
      LineEntry(ev.Written())
      == Some(Entry(if OCCURRED_AT in w then w[OCCURRED_AT] else ev.occurredAt, w - {OCCURRED_AT}))
  {
    MembersMeaning(ev.occurredAt, ev.fields);
    var w := LastWins(ev.fields);
    assert LineEntry(ev.Written()).value.fields == w - {OCCURRED_AT};
  }

  /** A row and the filter look at the time and the row keys only. */
  lemma SameShown(a: Entry, b: Entry, q: Query)
    requires a.occurredAt == b.occurredAt
    requires forall k :: k in ROW_KEYS ==> Get(a.fields, k) == Get(b.fields, k)
    ensures FilterEntry(a, q) == FilterEntry(b, q) && EntryToRow(a) == EntryToRow(b)
  {
    assert ROW_KEYS[0] == EVENT_TYPE && Get(a.fields, EVENT_TYPE) == Get(b.fields, EVENT_TYPE);
    assert ROW_KEYS[1] == SUBJECT && Get(a.fields, SUBJECT) == Get(b.fields, SUBJECT);
    assert ROW_KEYS[2] == PRINCIPAL && Get(a.fields, PRINCIPAL) == Get(b.fields, PRINCIPAL);
    assert ROW_KEYS[3] == OUTCOME && Get(a.fields, OUTCOME) == Get(b.fields, OUTCOME);
    assert ROW_KEYS[4] == DETAIL && Get(a.fields, DETAIL) == Get(b.fields, DETAIL);
  }

  lemma LineRowOfEvent(ev: Event, q: Query)
    requires ev.KeepsTime() && ev.Arrives()
    ensures LineRow(ev.Written(), q)
         == if FilterEntry(ev.Stored(), q) then Some(EntryToRow(ev.Stored())) else None
  {
    WrittenLine(ev);
    var read := LineEntry(ev.Written()).value;
    forall k | k in ROW_KEYS ensures Get(read.fields, k) == Get(ev.Stored().fields, k) {
      QueryKeysDistinct();
    }
    SameShown(read, ev.Stored(), q);
  }

  function StoredAll(evs: seq<Event>): (r: seq<Entry>)
    ensures |r| == |evs|
  {
    seq(|evs|, i requires 0 <= i < |evs| => evs[i].Stored())
  }

  function WrittenAll(evs: seq<Event>): (r: seq<Line>)
    ensures |r| == |evs|
  {
    seq(|evs|, i requires 0 <= i < |evs| => evs[i].Written())
  }

  /** Below the store's cap, events that arrive and keep their time read alike on every query. */
  lemma SameRows(evs: seq<Event>, q: Query)
    requires |evs| <= DAEMON_STORE_CAP
    requires forall i :: 0 <= i < |evs| ==> evs[i].KeepsTime() && evs[i].Arrives()
    ensures QueryFile(WrittenAll(evs), q) == QueryStore(StoreAfter(StoredAll(evs)), q)
  {
    var a, b := StoredAll(evs), WrittenAll(evs);
    StoreBounds(a);
    forall i | 0 <= i < |evs|
      ensures LineRow(b[i], q) == if FilterEntry(a[i], q) then Some(EntryToRow(a[i])) else None
    {
      LineRowOfEvent(evs[i], q);
    }
    LinesAsEntries(a, b, q);
  }

  lemma LinesAsEntries(es: seq<Entry>, lines: seq<Line>, q: Query)
    requires |es| == |lines| <= MAX_QUERY_LINES
    requires forall i :: 0 <= i < |es| ==>
      LineRow(lines[i], q) == if FilterEntry(es[i], q) then Some(EntryToRow(es[i])) else None
    ensures QueryFile(lines, q) == QueryStore(es, q)
  {
    FilterMapReverse(es, lines, Keep(q), EntryToRow, ReadLine(q));
    MapPage(Filter(Reverse(es), Keep(q)), EntryToRow, q.offset, q.limit);
    assert Take(lines, MAX_QUERY_LINES) == lines;
  }

  function Everything(limit: nat): Query { Query(None, None, None, None, None, limit, 0) }

  /** Asked for everything, the store gives the newest entry first. */
  lemma StoreEverything(es: seq<Entry>, i: nat)
    requires i < |es|
    ensures |QueryStore(es, Everything(|es|))| == |es|
    ensures QueryStore(es, Everything(|es|))[|es| - 1 - i] == EntryToRow(es[i])
  {
    FilterAll(Reverse(es), Keep(Everything(|es|)));
    ReverseAt(es, |es| - 1 - i);
    WholePage(Map(Reverse(es), EntryToRow), Everything(|es|));
    MapPage(Reverse(es), EntryToRow, 0, |es|);
  }

  lemma WholePage(rows: seq<Row>, q: Query)
    requires q.offset == 0 && q.limit >= |rows|
    ensures Page(rows, q) == rows
  {
  }

  lemma FileEverything(evs: seq<Event>, i: nat)
    requires i < |evs| <= MAX_QUERY_LINES
    ensures var rows := QueryFile(WrittenAll(evs), Everything(|evs|));
      |rows| == |evs|
      && rows[|evs| - 1 - i] == EntryToRow(LineEntry(evs[i].Written()).value)
  {
    var lines, read := WrittenAll(evs), ReadLine(Everything(|evs|));
    assert Take(lines, MAX_QUERY_LINES) == lines;
    BackwardsAll(lines, read, i);
  }

  lemma AgreeKeepsTime(evs: seq<Event>, i: nat)
    requires i < |evs| <= DAEMON_STORE_CAP
    requires var q := Everything(|evs|);
      QueryFile(WrittenAll(evs), q) == QueryStore(StoreAfter(StoredAll(evs)), q)
    ensures evs[i].KeepsTime()
  {
    StoreBounds(StoredAll(evs));
    SameTimes(StoredAll(evs), evs, i);
  }

  lemma SameTimes(es: seq<Entry>, evs: seq<Event>, i: nat)
    requires i < |evs| == |es| <= MAX_QUERY_LINES && es[i].occurredAt == evs[i].occurredAt
    requires QueryFile(WrittenAll(evs), Everything(|evs|)) == QueryStore(es, Everything(|es|))
    ensures evs[i].KeepsTime()
  {
    StoreEverything(es, i);
    FileEverything(evs, i);
    WrittenLine(evs[i]);
  }

  lemma FileCount(evs: seq<Event>)
    ensures |QueryFile(WrittenAll(evs), Everything(|evs|))|
         == if |evs| <= MAX_QUERY_LINES then |evs| else MAX_QUERY_LINES
  {
    FilterMapAll(Take(WrittenAll(evs), MAX_QUERY_LINES), ReadLine(Everything(|evs|)));
  }

  lemma StoreCount(es: seq<Entry>, q: Query)
    ensures |QueryStore(es, q)| <= |es|
  {
    FilterShorter(Reverse(es), Keep(q));
  }

  /** Past the cap the store has forgotten what the file still lists. */
  lemma AgreeWithinCap(evs: seq<Event>)
    requires var q := Everything(|evs|);
      QueryFile(WrittenAll(evs), q) == QueryStore(StoreAfter(StoredAll(evs)), q)
    ensures |evs| <= DAEMON_STORE_CAP
  {
    FileCount(evs);
    StoreBounds(StoredAll(evs));
    StoreCount(StoreAfter(StoredAll(evs)), Everything(|evs|));
  }

  /** The daemon's store after these events, and the file with their lines, answer every query alike. */
  ghost predicate Agree(evs: seq<Event>) {
    forall q :: QueryFile(WrittenAll(evs), q) == QueryStore(StoreAfter(StoredAll(evs)), q)
  }

  /** Nothing was evicted, and no field replaced the time in a written object. */
  ghost predicate Faithful(evs: seq<Event>) {
    |evs| <= DAEMON_STORE_CAP && forall i :: 0 <= i < |evs| ==> evs[i].KeepsTime()
  }

  /** What agreement takes of any events at all, and what is enough for it. */
  lemma AgreeBounds(evs: seq<Event>)
    ensures Agree(evs) ==> Faithful(evs)
    ensures Faithful(evs) && (forall i :: 0 <= i < |evs| ==> evs[i].Arrives()) ==> Agree(evs)
  {
    if Agree(evs) {
      AgreeWithinCap(evs);
      forall i | 0 <= i < |evs| ensures evs[i].KeepsTime() {
        AgreeKeepsTime(evs, i);
      }
    }
    if Faithful(evs) && forall i :: 0 <= i < |evs| ==> evs[i].Arrives() {
      forall q ensures QueryFile(WrittenAll(evs), q) == QueryStore(StoreAfter(StoredAll(evs)), q) {
        SameRows(evs, q);
      }
    }
  }

  /**
   For the same deliverable events, however many, the daemon's store and the
   file answer every query alike exactly when nothing was evicted and no field
   replaced the time in the written object.
   */
  lemma StoreAndFileAgree(evs: seq<Event>)
    requires forall i :: 0 <= i < |evs| ==> evs[i].Deliverable()
    ensures Agree(evs) <==> Faithful(evs)
  {
    AgreeBounds(evs);
    forall i | 0 <= i < |evs| ensures evs[i].Arrives() {
      DeliverableArrives(evs[i]);
    }
  }
}
