# Akāmu in Dafny

Akāmu is an ACME certificate authority written in Rust. This project models the
parts of it where a small mistake is hardest to see, and proves what they
promise: the DER it writes by hand, the audit journal with its datagram format,
its evicting store and its capped file queue, the audit alarm, STAR renewal,
anti-replay nonces across a cluster, policy rebuilds, the upstream delegation
driver, and the checks on certificate requests.

| file | part of the system |
|---|---|
| `Common`, `Octets`, `Lists`, `Text`, `Utf8` | octets, iterator chains, splitting and replacing, lossy UTF-8 |
| `Der`, `DerInteger`, `Krb5San` | lengths, INTEGER, Kerberos principal names |
| `JournalDatagram`, `JournalStore`, `JournalQueue` | the journal's wire format, its queries, its queue as a state machine |
| `Audit`, `AuditThreads` | overflow, violation window, failure run, halt latch; the same with any number of threads inside |
| `Star`, `StarTx` | validity windows over whole runs; the persist transaction against cancellation, crashes and the gossip persist |
| `Nonce` | issue, use and expiry of nonces on every node |
| `Policy` | rule parsing and rebuilds under every interleaving |
| `Delegation` | the upstream driver under every answer and every crash point |
| `Csr`, `CsrTemplate` | which requests are accepted, and the names they get |

Concurrency is modelled by state machines whose steps are the atomic accesses or
statements of the source; a theorem about a run quantifies over every sequence
of enabled steps. Code that updates in place is a class or a method with loops,
proved against a function, and the laws are lemmas about that function. Clocks,
randomness, answers of other services, and the outcome of signing and of library
decoders are inputs.

## Where the code falls short of a promise

Each of these is a lemma that gives the exact condition.

- Lengths of 65536 octets and more are written with their high bits lost
  (`Der.LengthRoundTrip`, `Krb5San.PrincipalRoundTrip`).
- A journal key with `=` or a newline does not survive the datagram
  (`JournalDatagram.DatagramRoundTrip`). A datagram cut inside a multi-octet
  character yields a replacement character (`JournalDatagram.ReceivedFields`,
  `Utf8.CutIsPrefix`).
- The daemon's store and the file stop agreeing past 100 000 events, or when a
  field named `occurred_at` replaces the time of its line in the file
  (`JournalStore.StoreAndFileAgree`). File queries see the oldest 500 000 lines
  only (`JournalQueue.LimitExactly`).
- `{dns}` in the realm part of a template is never substituted, so every DNS
  name gets the same OtherName (`Krb5San.ExpansionsDistinct`). The module
  documentation promises one OtherName per DNS name without this exception.
- A late STAR renewal under `lifetime-adjust` can outlive the end date
  (`Star.WithinExactly`, with `Star.LateRenewalOutlivesEndDate` as its input),
  and passes half a lifetime apart are too rare when the overlap is close to the
  lifetime (`Star.CoveredExactly`, with `Star.HalfLifetimeGapsFallBehind`).
- The latest certificate of an order is bound to be the one stored last while
  the clock moves forward (`Star.RowsAreChain`), and not otherwise
  (`Star.NewestIsLast`).
- In enforce mode a rebuild refuses a table with a corrupt rule, but start-up
  installs the rest of it and asks for no retry
  (`Policy.EnforceCompleteExactly`, with `Policy.StartupIncomplete`).
- The periodic gossip persist commits peers' rules without a rebuild or the retry
  flag, and so does an admin request that is dropped before its rebuild. At rest
  the engine is that of the last table exactly when a finished rebuild was asked
  for it or read it (`Policy.AtRestExactly`, with `Policy.PersistLosesRule` and
  `Policy.DropLosesRule`).
- The same persist writes over an order the certificate and status its replicated
  copy knows, which neither renewals nor the delegation driver update
  (`StarTx.PersistExactly`, `Delegation.OverwriteExactly`). A delegation order put
  back to processing is never driven again (`Delegation.PutBackIsStuck`).
- An upstream order is placed a second time exactly when a drive ended between
  placing it and recording its URL (`Delegation.PlacedAccounts`).
- Allowing one more subject field keeps every accepted request only if the
  subject was constrained already (`CsrTemplate.AllowingField`).

Where code and comments disagree the model follows the code: src/krb5_san.rs
cites section 3.1 of RFC 4556 for a structure that section 3.2.2 defines, and
src/ca/csr.rs lists a rejected `cA=TRUE` among its checks but only records it.

## Model

| member | source | states |
|---|---|---|
| Der.EncodeLength | src/krb5_san.rs:228-239 | appends the length octets and keeps everything already written |
| Der.DerTag | src/krb5_san.rs:184-189 | the buffer is exactly one tag-length-value of the content |
| Der.LengthRoundTrip | benches/acme_bench.rs:491-505 | any length is read back modulo 65536 with the rest untouched, so it is read back exactly below 65536 |
| Der.ShortestLength | src/krb5_san.rs:228-239 | no length octets of any form that stand for the same number are shorter (section 10.1 of X.690) |
| Der.TlvRoundTrip | benches/acme_bench.rs:471-477 | content and rest are recovered if and only if the content is under 65536 octets; above, the cut is given |
| Der.ReadLongLength | src/ca/init.rs:326-354 | folding length octets gives their big-endian value modulo 2^64 |
| Der.ReadAki | src/ca/init.rs:326-354 | the reader agrees with a reference for definite lengths of any width, on every octet string, including where the bound overflows |
| Der.ReadersAgree | benches/acme_bench.rs:491-505 | wherever the short reader answers, it answers as the reference reader does |
| Der.AkiRoundTrip | src/ca/init.rs:326-354 | an OCTET STRING from the writer is recovered, whatever follows, if and only if it is under 65536 octets |
| DerInteger.MinimalUnique | src/krb5_san.rs:208-226 | two minimal INTEGER contents with one value are the same octets |
| DerInteger.DerIntegerI32 | src/krb5_san.rs:208-226 | the loop writes minimal two's-complement content whose value is the argument, for every i32 |
| DerInteger.EncodeIntegerDer | src/ca/revoke.rs:92-108 | the same for every u64, with the sign octet exactly where minimality needs it |
| DerInteger.EncodersAgree | src/ca/revoke.rs:92-108 | both encoders write identical octets on every value both take |
| DerInteger.StripIntRoundTrip | benches/acme_bench.rs:479-489 | the integer reader gives back the value and the untouched rest |
| Krb5San.PrincipalRoundTrip | src/krb5_san.rs:44-79 | a nested reader recovers realm, name type and components from the OtherName if and only if a size computed from the lengths alone is under 65536 |
| Krb5San.EncodingInjective | src/krb5_san.rs:44-79 | different principals, however cut into components, have different encodings |
| Krb5San.ContentLength | src/krb5_san.rs:176-206 | that size is the true length of the outermost content |
| Krb5San.PrincipalStrRoundTrip | src/krb5_san.rs:93-110 | refused exactly without `@` or with one at the end; otherwise the whole text can be read off the encoding, and a slash makes it a service name |
| Krb5San.EncodeExpansions | src/krb5_san.rs:126-137 | one OtherName per name in order, or the first error |
| Krb5San.ExpandKpnTemplate | src/krb5_san.rs:116-151 | error cases and, otherwise, the encodings of exactly the expanded names in order |
| Krb5San.ExpansionsDistinct | src/krb5_san.rs:116-151 | in the list a template with the placeholder expands to, one per DNS name, two entries are equal if and only if their DNS names are, or the placeholder is in the realm only |
| Krb5San.ExpansionReads | src/krb5_san.rs:126-137 | the entry of each DNS name is read back as the template's name with that DNS name put in, within the size limit and only then |
| Krb5San.StaticTemplate | src/krb5_san.rs:138-148 | a template without the placeholder gives exactly one OtherName, that of its own text, whatever the DNS names; its error cases |
| Krb5San.NamedConstants | src/krb5_san.rs:27-34 | the identifier octets are those of arcs 1.3.6.1.5.2.2, and the placeholder and separators as characters |
| Text.ReplaceFirst | src/krb5_san.rs:128-128 | substitution leaves everything before the first placeholder alone, replaces it, and goes on after it |
| Utf8.LossyOfCut | src/journal.rs:548-602 | text cut anywhere reads as its whole characters plus one replacement character if one was cut |
| Utf8.CutIsPrefix | src/journal.rs:548-602 | cut text reads as a prefix of itself if and only if the cut fell between characters or went through a U+FFFD |
| Utf8.CharacterKnown | src/journal.rs:548-602 | the encoding of every scalar value by section 3 of RFC 3629 is recognised, whatever follows |
| Utf8.OnlyCharacters | src/journal.rs:548-602 | nothing else is recognised |
| Utf8.IllFormedPart | src/journal.rs:548-602 | an ill-formed part ends where no character goes on as the octets do |
| JournalDatagram.Print | src/journal.rs:272-289 | the buffer is the concatenation of the fields' encodings in order |
| JournalDatagram.WireFormat | src/journal.rs:272-289 | the separators as characters, and octet i of a length has weight 256 to the i |
| JournalDatagram.PrintField | src/journal.rs:272-289 | a value with a newline is framed by its length, any other by a newline |
| JournalDatagram.ScanField | src/journal.rs:548-602 | one turn of the parser at any position finds what it would find in the tail alone |
| JournalDatagram.ParseJournalDatagram | src/journal.rs:548-602 | terminates in bounds on every octet string with the fields of the recursive parser |
| JournalDatagram.ParseOfField | src/journal.rs:548-602 | a printed field is consumed whole, whatever follows, and adds exactly its key and value |
| JournalDatagram.ParsedKeysClean | src/journal.rs:548-602 | no octets at all make the parser yield a key with `=` or a newline |
| JournalDatagram.ParsedIsText | src/journal.rs:548-602 | whatever octets arrive, every key and value handed on is text |
| JournalDatagram.DatagramRoundTrip | src/journal.rs:272-289 | parsing what was printed gives each key its last value if and only if no key holds `=` or a newline |
| JournalDatagram.CutDatagram | src/journal.rs:172-195 | cut after any octet, the datagram yields the fields that arrived whole and at most the one that was cut |
| JournalDatagram.ReceivedFields | src/journal.rs:172-195 | through the 65536-octet buffer every whole field arrives as sent; the next key arrives if and only if its separator did, with exactly what the octets that arrived make of its value, and when that is a prefix of it |
| JournalStore.StoreIsSuffix | src/journal.rs:172-195 | after any arrivals the store is the last n of them, n in closed form |
| JournalStore.StoreBounds | src/journal.rs:172-195 | never above 100 000 and, once filled, above nine tenths of it |
| JournalStore.DaemonStore.constructor | src/journal.rs:162-171 | an empty store for an empty history |
| JournalStore.DaemonStore.Receive | src/journal.rs:172-195 | the store stays the function of all entries received, this one appended |
| JournalStore.StorePage | src/journal.rs:344-361 | a query returns its page of the listing by index that the next row describes entry by entry |
| JournalStore.StoreAnswer | src/journal.rs:344-361 | the answer is the asked slice of the rows of exactly the entries whose named fields equal the given values and whose time lies between from and until, each once, newest first, each row showing its entry column by column |
| JournalStore.SelectedExactly | src/journal.rs:507-545 | the filter as conditions on the fields by name and the time, and each column of a row by its field |
| JournalStore.LessIsBefore | src/journal.rs:523-532 | the comparison is by the first octet that differs, or a proper prefix |
| JournalStore.LessTotal | src/journal.rs:523-532 | and is a strict total order |
| JournalStore.FileAnswer | src/journal.rs:363-430 | a file query answers as the store would with the entries of the first 500 000 lines |
| JournalStore.LineHolds | src/journal.rs:393-414 | which lines are entries, and which members become time and fields |
| JournalStore.PagesListAll | src/journal.rs:344-361 | consecutive pages together are the front of that listing: nothing repeated, nothing skipped |
| JournalStore.WrittenLine | src/journal.rs:462-505 | a written line is read back as the event's fields, its time replaced only by a field of that name |
| JournalStore.StoreAndFileAgree | src/journal.rs:363-430 | for deliverable events, however many, the daemon's store (printed, cut, parsed, evicted) and the file answer every query alike if and only if nothing was evicted and no field replaced the time |
| JournalStore.AgreeBounds | src/journal.rs:344-430 | for any events at all, agreement takes both conditions; they are enough as soon as the values a row shows arrive, whatever else the events carry |
| JournalQueue.QueueBounded | src/journal.rs:293-325 | in every interleaving the cap holds, the counter is the sum of all writes under way, and it never underflows, even after the writer died |
| JournalQueue.RefusedExactly | src/journal.rs:293-325 | a sender is refused if and only if writes under way plus refusals in progress reach the cap |
| JournalQueue.AdmittedIsSent | src/journal.rs:293-325 | an admitted event is queued as it is behind all queued before it, whatever other threads do in between |
| JournalQueue.InitCounter | src/journal.rs:134-160 | the state after opening the file meets the invariant |
| JournalQueue.FlushBarrier | src/journal.rs:363-373 | every event queued before a query began is handled by its acknowledgement; if written, it is in the file where the order of sending puts it, and in the answer under stated limits |
| JournalQueue.OldestLinesOnly | src/journal.rs:363-430 | lines after the first 500 000 never change an answer |
| JournalQueue.LimitExactly | src/journal.rs:363-430 | the line limit changes no answer if and only if no line past it holds an entry |
| Audit.AuditState.HandleAlarm | src/audit.rs:308-326 | the latch is set under the halt action and otherwise kept |
| Audit.AuditState.CheckViolation | src/audit.rs:328-349 | whole new state: pruned window, own time, latch |
| Audit.AuditState.RecordEvent | src/audit.rs:353-413 | whole new state; a failed send changes nothing |
| Audit.AuditState.RecordTwo | src/audit.rs:416-433 | both events are attempted, and success means both |
| Audit.AuditState.TrackRecordResult | src/audit.rs:437-470 | failures in a row, with the u32 wrap, and the latch |
| Audit.AuditState.LogEvent | src/audit.rs:492-501 | record, then track its outcome |
| Audit.AuditState.LogTwo | src/audit.rs:478-490 | a pair is tracked as one call |
| Audit.HistoryExplains | src/audit.rs:308-501 | all four fields as functions of the full history of calls |
| Audit.HaltExactly | src/audit.rs:353-470 | the latch is set if and only if the history overflowed, had threshold many violations in one window, or threshold many failed calls in a row |
| Audit.HaltLatches | src/audit.rs:353-470 | no continuation of a history clears the latch |
| Audit.WindowStep | src/audit.rs:328-349 | pruning before each push loses nothing a later window needs |
| Audit.AlarmSeesFullLog | src/audit.rs:328-349 | the pruned list decides the alarm exactly as the full log would: its count inside the window, as a u32, against the threshold |
| AuditThreads.HaltAtRest | src/audit.rs:353-470 | in every interleaving of any number of threads the latch is set, or about to be, if and only if one of the three causes holds of the accesses in their own orders; at rest these orders hold every event and outcome of the calls exactly once |
| AuditThreads.DueExactly | src/audit.rs:353-490 | the accesses of the calls are one per event recorded, violation recorded and outcome tracked |
| AuditThreads.RunKeepsInv | src/audit.rs:328-470 | counters, window and latch stay explained by the accesses made, one step per atomic access or mutex section |
| Star.ResolveClampedValidity | src/ca/issue.rs:189-227 | start clamped to the skew, window not empty, requests honoured whenever they lie in range |
| Star.ResolveExactly | src/ca/issue.rs:189-227 | start and end for every combination of given, absent, early and late requests; without any, exactly now to that many days later |
| Star.PassExactly | src/star.rs:55-162 | one pass over an order adds a certificate exactly under the listed conditions, with exactly that window, and changes none there is |
| Star.HandleOrder | src/star.rs:55-162 | the loop body reissues exactly for a due order, and otherwise keeps the chain |
| Star.StarDb.RunOnce | src/star.rs:43-162 | listed orders each get one step from the old state; all others are untouched |
| Star.TimelyWindow | src/star.rs:145-162 | a reissue up to the moment of expiry stays within the order's bounds and overlaps its predecessor |
| Star.WithinExactly | src/star.rs:145-162 | when any reissue at all stays within bounds, as an if-and-only-if on its inputs |
| Star.LateRenewalOutlivesEndDate | src/star.rs:145-162 | a concrete late renewal that ends after the end date |
| Star.RunKeepsChain | src/star.rs:43-162 | in every timely run all windows are non-empty, at most a lifetime long, end by the end date, overlap, and never end earlier than before |
| Star.ChainCovers | src/star.rs:43-162 | such a chain leaves no second uncovered |
| Star.SteadyRenewalCovers | src/star.rs:43-162 | passes whose gaps fit cover the order from its first certificate to its end date |
| Star.CoveredExactly | src/star.rs:43-162 | every steady run is covered up to its next pass if and only if the gap is at most half the lifetime and a second and, with an overlap, at most lifetime minus overlap |
| Star.HalfLifetimeGapsFallBehind | src/star.rs:145-162 | the smallest instance of a gap that does not fit: half a lifetime under an overlap close to it |
| Star.LastStretchRepeats | src/star.rs:106-112 | once the current certificate ends at the end date, every pass in the last half lifetime adds one more that ends there |
| Star.NewestIsLast | src/db/certs.rs:267-284 | the latest-certificate query is bound to return the row stored last if and only if that row alone has the latest stamp |
| Star.RowsAreChain | src/db/certs.rs:267-284 | under a clock that moves forward the rows stored are exactly the chain of the run, whatever the query picks among equals |
| StarTx.RunKeepsInv | src/star.rs:215-266 | in every interleaving with cancels, aborts, crashes and persists, an order's current certificate is its last stored one unless a persist wrote it since |
| StarTx.PersistExactly | crates/akamu-crdt/src/db.rs:827-836 | a persist leaves the last stored certificate current if and only if its copy of the order knows that certificate |
| StarTx.StoredIsCurrent | src/db/orders.rs:246-266 | every step stores nothing, or one row of an order not canceled, made current in the same commit |
| StarTx.CanceledGainsNothing | src/db/orders.rs:47-66 | a canceled order stays canceled and gains no certificate, and but for a persist its row never changes again |
| Nonce.NonceBucket.WithPrefix | src/state.rs:81-95 | a node that has issued and accepted nothing, prefix and dotted prefix in step |
| Nonce.NonceBucket.HasLocalPrefix | src/state.rs:97-103 | true exactly for nonces under the node's dotted prefix, or always without a prefix |
| Nonce.NonceBucket.Insert | src/state.rs:105-113 | the new map |
| Nonce.NonceBucket.ConsumeAndInsert | src/state.rs:120-133 | succeeds exactly on a present nonce, which it removes as it adds the next; otherwise nothing changes |
| Nonce.NonceBucket.SweepExpired | src/state.rs:135-145 | the sweep step of the cluster: keeps exactly those at or after the saturated cutoff, and counts the others |
| Nonce.NonceBucket.NewNonce | src/routes/mod.rs:753-757 | the bucket takes the issue step of the cluster |
| Nonce.NonceBucket.CheckNonce | src/routes/mod.rs:634-644 | the bucket takes the request step of the cluster, and the answer is whether the node accepts the nonce |
| Nonce.NonceConserved | src/routes/mod.rs:634-644 | in every cluster run, uses plus presence never exceed issues, so a nonce issued once is used at most once |
| Nonce.OneNodeAccepts | src/routes/mod.rs:752-772 | nodes with different prefixes never both accept a nonce |
| Nonce.GenInjective | src/routes/mod.rs:762-772 | different random parts give different nonces |
| Nonce.PrefixExactly | src/state.rs:97-103 | the prefix test holds exactly for the prefix, a dot and anything, or without a prefix |
| Nonce.HeldIsAccepted | src/state.rs:97-103 | the prefix test refuses nothing the node issued |
| Nonce.YoungNonceAccepted | src/main.rs:1509-1523 | an unused nonce, issued on request or in any answer, is accepted after any other traffic and sweeps while no older than the sweep age |
| Nonce.SweepExactly | src/state.rs:135-145 | after a sweep a nonce is accepted if and only if it was held and not older than the age |
| Policy.ParseDbRules | src/policy.rs:27-58 | rules and skipped ids of the enabled rows, in row order |
| Policy.RulesExactly | src/policy.rs:27-58 | the rules are the decoded values of exactly the rows with enabled not 0, in row order, each once |
| Policy.SkippedExactly | src/policy.rs:27-58 | the skipped ids are those of exactly the rows with enabled not 0 that do not decode, in row order |
| Policy.DisabledIrrelevant | src/policy.rs:27-58 | leaving out all disabled rows changes neither result |
| Policy.RebuildExactly | src/policy.rs:73-109 | when a rebuild succeeds and which error it reports, as conditions on the rows |
| Policy.NothingSkipped | src/policy.rs:27-58 | every enabled row is either a rule or skipped; with none skipped the rules are the rows' own, in order |
| Policy.PolicyState.RebuildIssuancePolicy | src/policy.rs:73-109 | all or nothing; in enforce mode success installs every enabled rule |
| Policy.PolicyState.RebuildOrDefer | src/policy.rs:115-125 | on failure the engine is kept and the retry flag is up |
| Policy.RunKeepsInv | src/state.rs:326-339 | under every interleaving of commits, persists, drops, retries and rebuilds: the lock is exclusive, the engine is that of one table, and what a finished rebuild was asked for is installed, flagged or being retried |
| Policy.EngineNeverGoesBack | src/state.rs:326-339 | the engine is always the rules of one committed table, and never moves to an older one |
| Policy.AtRestNothingLost | src/gossip/gossip_loop.rs:194-201 | if no admin request is dropped, at rest every table committed along with a rebuild is installed or replaced by a later one, or the retry flag is up |
| Policy.AtRestExactly | src/gossip/gossip_loop.rs:146-201 | at rest without the flag the engine is that of the last table if and only if a finished rebuild was asked for it or read it; in enforce mode it is complete unless still that of a start-up table with a corrupt row |
| Policy.PersistLosesRule | src/gossip/gossip_loop.rs:146-160 | a concrete rule committed by the periodic persist that rests outside the engine with no flag |
| Policy.DropLosesRule | src/routes/admin/policy.rs:230-270 | the same for an admin request dropped between commit and rebuild |
| Policy.CompleteExactly | src/main.rs:836-860 | in every state of every run the engine holds all enabled rules of its table if and only if none is corrupt, and in enforce mode only the start-up table can have one |
| Policy.EnforceCompleteExactly | src/main.rs:836-860 | enforce mode keeps the engine complete in every run if and only if the start-up table has no corrupt enabled row |
| Policy.StartupIncomplete | src/main.rs:836-860 | a concrete start-up that rests with a rule missing in enforce mode and no retry flag |
| Delegation.SatisfyAuthorizations | src/delegation_upstream.rs:307-386 | the effects are, authorization by authorization in list order, deploy and trigger for an answerable one, cleanup for a valid one and nothing for others, up to the first that ends the loop |
| Delegation.AnsweredExactly | src/delegation_upstream.rs:307-386 | an authorization is deployed and triggered if and only if it is answerable and all before it let the loop go on |
| Delegation.CleanupExactly | src/delegation_upstream.rs:389-437 | before finalization each authorization that can be cleaned up is, in list order, and nothing else happens |
| Delegation.PendingDriveAnswers | src/delegation_upstream.rs:248-252 | a drive of an open order pending upstream ends with the effects of its authorizations |
| Delegation.ReadyDriveFinalizes | src/delegation_upstream.rs:253-263 | a drive of an open order ready upstream cleans up, submits, and records the URL answered |
| Delegation.Driver.RunOnce | src/delegation_upstream.rs:129-183 | working on rows listed at the start equals reading each row afresh |
| Delegation.DriveLeavesOthers | src/delegation_upstream.rs:186-304 | driving an order, cut anywhere, changes no other order and no certificate of another order |
| Delegation.RunKeepsInv | src/delegation_upstream.rs:480-566 | in every run, under any answers and crashes, a delegation order is valid if and only if exactly one certificate row and its upstream URL are stored |
| Delegation.RunLeavesSettled | src/db/orders.rs:472-490 | no run changes an order that is not pending (ordinary, finished, or with its certificate URL stored), nor its certificates |
| Delegation.RunLeavesOrdinary | src/db/orders.rs:472-490 | in particular no run touches an order that is not a delegation order |
| Delegation.OverwriteExactly | crates/akamu-crdt/src/db.rs:827-836 | an overwrite by the gossip persist keeps the law if and only if it writes back the same certificate and agrees on validity |
| Delegation.PutBackIsStuck | src/db/orders.rs:472-490 | a valid order put back to processing breaks the law and stays so in every later run |
| Delegation.PlacedAccounts | src/delegation_upstream.rs:186-304 | upstream orders placed equal the URL on record plus the drives cut right after placing one |
| Delegation.NoSecondOrder | src/delegation_upstream.rs:186-304 | once a URL is recorded, no further upstream order is placed |
| Delegation.RunUrlFollows | src/db/orders.rs:432-449 | in every run the URL on record is the one written last |
| Delegation.DriveRecordsAnswers | src/delegation_upstream.rs:186-304 | every URL written is the one just answered by placing or finalizing the order |
| Delegation.DriveOutcome | src/delegation_upstream.rs:186-304 | an undisturbed drive ends valid, with the certificate and URL answered, if and only if the certificate was obtained in time; invalid if and only if it expired or was refused upstream; otherwise pending |
| Delegation.CleanedBeforeFinalize | src/delegation_upstream.rs:416-478 | every challenge with a cleanup script has been cleaned up before finalization is submitted |
| Delegation.RunDeploysFirst | src/delegation_upstream.rs:307-386 | every challenge triggered was deployed right before, in every run |
| Csr.Ipv4RoundTrip | src/ca/csr.rs:250-263 | address octets survive text and back |
| Csr.Ipv4Meaning | src/ca/csr.rs:250-263 | the text is the four octets in order in decimal, with dots between |
| Csr.Ipv4Canonical | src/ca/issue.rs:608-615 | only an address's own text denotes it |
| Csr.DecodeNames | src/ca/csr.rs:121-162 | succeeds exactly when every name decodes, and an error is some name's own |
| Csr.DecodedExactly | src/ca/csr.rs:121-161 | what each kind of name decodes to, and exactly which do not |
| Csr.NormalizeAt | src/ca/csr.rs:145-152 | an e-mail address octet for octet: unchanged up to the first at sign, lower case after it |
| Csr.CheckSans | src/ca/csr.rs:163-189 | no error if and only if both containments hold; an error names a true offender |
| Csr.ValidateNames | src/ca/csr.rs:121-189 | accepted if and only if all names decode and requested and authorised names are equal as sets |
| Csr.OrderAndRepeatsIrrelevant | src/ca/csr.rs:163-189 | order and repetition on either side never change the decision |
| Csr.AddSans | src/ca/issue.rs:312-364 | an unparsable address fails the whole, otherwise all recognised names in order |
| Csr.AddExtras | src/ca/issue.rs:312-364 | other names, then DNS names, after the request's own |
| Csr.BuildSan | src/ca/issue.rs:312-364 | names in order, critical exactly for an empty subject, absent or an error exactly with no name |
| Csr.RebuiltSan | src/ca/issue.rs:312-364 | building never fails on an accepted request: it gets exactly its own names, addresses octet for octet, e-mail domains in lower case, then the extra names; critical exactly for an empty subject, absent exactly without a name |
| CsrTemplate.ValidateKeyType | src/ca/csr_template.rs:218-269 | accepted if and only if it is an RSA key and some RSA key type has no size or its size, or an EC key and some EC or ECDSA key type has no curve or its curve |
| CsrTemplate.FixedSizeDecides | src/ca/csr_template.rs:247-269 | a key type that fixes a size or curve admits one value of it, and no other kind of key is admitted |
| CsrTemplate.FieldCheckExact | src/ca/csr_template.rs:271-309 | the check on filtered values equals a condition on the whole multi-valued subject |
| CsrTemplate.ValidateSubject | src/ca/csr_template.rs:327-358 | accepted if and only if unconstrained, or every field meets its spec and no unknown attribute occurs |
| CsrTemplate.SubjectExactly | src/ca/csr_template.rs:312-358 | the subject condition field by field of the template |
| CsrTemplate.ValidateKeyUsage | src/ca/csr_template.rs:480-516 | accepted if and only if all names are known and name exactly the bits that are set |
| CsrTemplate.KeyUsageBySet | src/ca/csr_template.rs:467-516 | two lists of known names admit the same requests if and only if they name the same usages |
| CsrTemplate.BitNumbers | src/ca/csr_template.rs:467-478 | the nine bit numbers by name, and the alias |
| CsrTemplate.ValidateEku | src/ca/csr_template.rs:518-534 | accepted if and only if every requested usage is permitted |
| CsrTemplate.FindExt | src/ca/csr_template.rs:388-392 | the first extension of the OID, or none anywhere |
| CsrTemplate.ValidateExtensions | src/ca/csr_template.rs:394-464 | accepted if and only if unconstrained, or only permitted extensions occur, required ones are there, and first usages conform |
| CsrTemplate.ExtensionsExactly | src/ca/csr_template.rs:394-464 | the extension condition by the fields of the template |
| CsrTemplate.ValidateCsrAgainstTemplate | src/ca/csr_template.rs:162-181 | which violation is reported, for each by an if-and-only-if, and acceptance exactly when there is none |
| CsrTemplate.RelaxingKeepsAccepted | src/ca/csr_template.rs:93-181 | a looser template turns no accepted request into a rejected one |
| CsrTemplate.AllowingField | src/ca/csr_template.rs:327-358 | allowing one more field keeps all accepted subjects if and only if the subject was already constrained |

## Left out

- Signing, certificate building, HSM and PKCS #11, and the synta DER library: outcomes are inputs.
- Microsoft UPN OtherNames (src/krb5_san.rs:82-90, 157-174): the same encoder with two fewer layers.
- JSON text: a journal line is the object it stands for, and templates are taken after parsing.
- The systemd journal socket and `journalctl` queries: only the built-in daemon and file backends are modelled.
- Atomic accesses are sequentially consistent in `JournalQueue`; the weaker orderings of the source are not distinguished.
- IPv6 text is a pair of functions assumed inverse to each other and apart from IPv4 text, as the standard library documents.
- Crypto and transport of the gossip protocol, the CRDT, OCSP, CRLs, Merkle tree certificates, the admin interface and configuration.
- ACME challenge validation and account handling.
- Delegation.RunKeepsInv: runs of the driver alone; what an overwrite by the gossip persist does in between is `Delegation.OverwriteExactly` and `Delegation.PutBackIsStuck`.
- Delegation.Driver.RunOnce: one driver; two drivers on one database are not modelled, since the source starts one.
- StarTx.RunKeepsInv: a guarded UPDATE is taken to lock its row until commit, as SQLite and PostgreSQL do.
- Star.RunKeepsChain: requires renewals by expiry; what holds without that is `Star.WithinExactly`.
- JournalQueue.FlushBarrier: a failed write leaves nothing behind in the model, while the buffered writer may keep part of the line and write it, or a joined line, with a later flush.
- JournalStore.StoreAndFileAgree: events are deliverable (text, clean keys, within the buffer) and carry one time stamp; the daemon stamps on receipt and the file backend on sending. What arrives of other events is `JournalDatagram.DatagramRoundTrip` and `JournalDatagram.ReceivedFields`.
- Nonce.OneNodeAccepts: requires different prefixes; nodes whose identifiers share their first eleven characters share a prefix.
